/** The grid of hj/algo/astar.hpp, its paths, and what it means for a heuristic to be consistent.

    Costs are exact: a `double` is a real number or one of the values std::isfinite rejects. */
module AStarGraph {

  datatype Cost = Finite(value: real) | NotFinite

  datatype Location = Location(x: int, y: int)

  /** location::operator<, the tie-break of the priority queue. */
  predicate Less(a: Location, b: Location) {
    if a.x != b.x then a.x < b.x else a.y < b.y
  }

  /** The value of a grid object at one moment. */
  datatype Graph = Graph(adjacency: map<Location, seq<Location>>,
                         weights: map<(Location, Location), real>,
                         obstacles: set<Location>)
  {
    predicate Walkable(l: Location) {
      l in adjacency && l !in obstacles
    }

    function CostOf(a: Location, b: Location): Cost {
      if b in obstacles then NotFinite
      else if (a, b) in weights then Finite(weights[(a, b)])
      else Finite(1.0)
    }

    ghost predicate NonNegative() {
      forall e :: e in weights ==> weights[e] >= 0.0
    }

    /** A step the search may take. */
    predicate Edge(a: Location, b: Location) {
      Walkable(a) && Walkable(b) && b in adjacency[a] && CostOf(a, b).Finite?
    }

    function Weight(a: Location, b: Location): (w: real)
      requires Edge(a, b)
    {
      CostOf(a, b).value
    }
  }

  class Grid {
    var adjacency: map<Location, seq<Location>>
    var weights: map<(Location, Location), real>
    var obstacles: set<Location>

    function View(): Graph
      reads this
    {
      Graph(adjacency, weights, obstacles)
    }

    /** What set_edge_weight keeps: no stored weight is negative. */
    ghost predicate Valid()
      reads this
    {
      View().NonNegative()
    }

    constructor ()
      ensures Valid() && View() == Graph(map[], map[], {})
      ensures forall l :: !View().Walkable(l)
      ensures forall a, b :: View().CostOf(a, b) == Finite(1.0)
    {
      adjacency, weights, obstacles := map[], map[], {};
    }

    /** The (width, height) constructor's loops, entered after its size check. */
    method AddCells(width: int, height: int) returns (ok: bool)
      modifies this
      ensures ok <==> width > 0 && height > 0
      ensures !ok ==> View() == old(View())
      ensures ok ==> forall l :: l in adjacency <==>
                       (l in old(adjacency) || (0 <= l.x < width && 0 <= l.y < height))
      ensures forall l :: l in old(adjacency) ==> l in adjacency && adjacency[l] == old(adjacency[l])
      ensures forall l :: l in adjacency && l !in old(adjacency) ==> adjacency[l] == []
      ensures weights == old(weights) && obstacles == old(obstacles)
      ensures ok ==> forall l :: View().Walkable(l) <==>
                       old(View()).Walkable(l) || (0 <= l.x < width && 0 <= l.y < height && l !in obstacles)
      ensures forall a, b :: View().CostOf(a, b) == old(View()).CostOf(a, b)
    {
      if width <= 0 || height <= 0 {
        return false;
      }
      for y := 0 to height
        invariant forall l :: l in adjacency <==> (l in old(adjacency) || (0 <= l.x < width && 0 <= l.y < y))
        invariant forall l :: l in adjacency ==> adjacency[l] == if l in old(adjacency) then old(adjacency)[l] else []
        invariant weights == old(weights) && obstacles == old(obstacles)
      {
        for x := 0 to width
          invariant forall l :: l in adjacency <==>
                      (l in old(adjacency) || (0 <= l.x < width && 0 <= l.y < y) || (0 <= l.x < x && l.y == y))
          invariant forall l :: l in adjacency ==> adjacency[l] == if l in old(adjacency) then old(adjacency)[l] else []
          invariant weights == old(weights) && obstacles == old(obstacles)
        {
          if Location(x, y) !in adjacency {
            adjacency := adjacency[Location(x, y) := []];
          }
        }
      }
      return true;
    }

    method AddLocation(l: Location, neighbors: seq<Location>)
      requires Valid()
      modifies this
      ensures Valid() && View() == old(View()).(adjacency := old(adjacency)[l := neighbors])
      ensures forall v :: View().Walkable(v) <==> old(View()).Walkable(v) || (v == l && l !in obstacles)
      ensures forall a, b :: View().CostOf(a, b) == old(View()).CostOf(a, b)
    {
      adjacency := adjacency[l := neighbors];
    }

    method AddObstacles(obs: seq<Location>)
      requires Valid()
      modifies this
      ensures Valid() && View() == old(View()).(obstacles := old(obstacles) + set o | o in obs)
      ensures forall l :: View().Walkable(l) <==> old(View()).Walkable(l) && l !in obs
      ensures forall a, b :: View().CostOf(a, b) == if b in obs then NotFinite else old(View()).CostOf(a, b)
    {
      for i := 0 to |obs|
        invariant View() == old(View()).(obstacles := old(obstacles) + set o | o in obs[..i])
      {
        obstacles := obstacles + {obs[i]};
      }
      assert obs[..|obs|] == obs;
    }

    /** A weight that is negative or not finite is refused and changes nothing. */
    method SetEdgeWeight(from: Location, to: Location, w: Cost) returns (ok: bool)
      requires Valid()
      modifies this
      ensures Valid() && (ok <==> w.Finite? && w.value >= 0.0)
      ensures View() == if ok then old(View()).(weights := old(weights)[(from, to) := w.value]) else old(View())
      ensures forall l :: View().Walkable(l) <==> old(View()).Walkable(l)
      ensures forall a, b :: View().CostOf(a, b) ==
                if ok && a == from && b == to && to !in obstacles then w else old(View()).CostOf(a, b)
    {
      if !w.Finite? || w.value < 0.0 {
        return false;
      }
      weights := weights[(from, to) := w.value];
      return true;
    }
  }

  // ---------------------------------------------------------------- paths

  ghost predicate IsPath(g: Graph, p: seq<Location>, a: Location, b: Location) {
    && |p| > 0 && p[0] == a && p[|p| - 1] == b && g.Walkable(a)
    && forall i :: 0 <= i < |p| - 1 ==> g.Edge(p[i], p[i + 1])
  }

  ghost function PathCost(g: Graph, p: seq<Location>): (c: real)
    requires forall i :: 0 <= i < |p| - 1 ==> g.Edge(p[i], p[i + 1])
  {
    if |p| <= 1 then 0.0 else PathCost(g, p[..|p| - 1]) + g.Weight(p[|p| - 2], p[|p| - 1])
  }

  lemma PrefixIsPath(g: Graph, p: seq<Location>, a: Location, b: Location, j: nat)
    requires IsPath(g, p, a, b) && j < |p|
    ensures IsPath(g, p[..j + 1], a, p[j]) && g.Walkable(p[j])
    ensures j > 0 ==> g.Edge(p[j - 1], p[j])
                      && PathCost(g, p[..j + 1]) == PathCost(g, p[..j]) + g.Weight(p[j - 1], p[j])
  {
    assert j > 0 ==> g.Edge(p[j - 1], p[(j - 1) + 1]);
    assert p[..j + 1][..j] == p[..j];
  }

  lemma ExtendPath(g: Graph, p: seq<Location>, a: Location, b: Location, c: Location)
    requires IsPath(g, p, a, b) && g.Edge(b, c)
    ensures IsPath(g, p + [c], a, c) && PathCost(g, p + [c]) == PathCost(g, p) + g.Weight(b, c)
  {
    var q := p + [c];
    assert q[..|q| - 1] == p;
    forall i | 0 <= i < |q| - 1
      ensures g.Edge(q[i], q[i + 1])
    {
      if i < |p| - 1 {
        assert g.Edge(p[i], p[i + 1]);
      }
    }
  }

  lemma {:induction false} PathCostNonNegative(g: Graph, p: seq<Location>, a: Location, b: Location)
    requires IsPath(g, p, a, b) && g.NonNegative()
    ensures PathCost(g, p) >= 0.0
  {
    if |p| > 1 {
      PrefixIsPath(g, p, a, b, |p| - 2);
      PrefixIsPath(g, p, a, b, |p| - 1);
      assert p[..|p| - 1 + 1] == p;
      PathCostNonNegative(g, p[..|p| - 1], a, p[|p| - 2]);
    }
  }

  /** No path from a to v costs less than c. */
  ghost predicate LowerBound(g: Graph, a: Location, v: Location, c: real) {
    forall p :: IsPath(g, p, a, v) ==> c <= PathCost(g, p)
  }

  ghost predicate Reachable(g: Graph, a: Location, b: Location) {
    exists p :: IsPath(g, p, a, b)
  }

  // ---------------------------------------------------------------- heuristics

  type Heuristic = (Location, Location) -> Cost

  /** search accepts a heuristic value only when it is finite and not negative. */
  predicate Usable(c: Cost) {
    c.Finite? && c.value >= 0.0
  }

  ghost predicate Consistent(g: Graph, h: Heuristic, goal: Location) {
    forall a, b :: g.Edge(a, b) ==>
      h(a, goal).Finite? && h(b, goal).Finite? && h(a, goal).value <= g.Weight(a, b) + h(b, goal).value
  }

  /** Along a path a consistent heuristic falls by at most the cost of the path. */
  lemma {:induction false} ConsistentAlong(g: Graph, h: Heuristic, goal: Location, p: seq<Location>, a: Location, b: Location, j: nat)
    requires Consistent(g, h, goal) && IsPath(g, p, a, b) && j < |p| && |p| > 1
    ensures h(p[j], goal).Finite? && h(b, goal).Finite?
    ensures PathCost(g, p[..j + 1]) + h(p[j], goal).value <= PathCost(g, p) + h(b, goal).value
  {
    var n := |p| - 1;
    assert p[..n + 1] == p;
    PrefixIsPath(g, p, a, b, n);
    if j < n {
      PrefixIsPath(g, p, a, b, n - 1);
      assert p[..n][..j + 1] == p[..j + 1];
      if n > 1 {
        ConsistentAlong(g, h, goal, p[..n], a, p[n - 1], j);
      } else {
        assert p[..n] == p[..j + 1];
      }
    }
  }

  function Abs(d: int): (r: int)
    ensures r >= 0 && (r == d || r == -d)
  {
    if d >= 0 then d else -d
  }

  function Manhattan(a: Location, b: Location): Cost {
    Finite(Abs(a.x - b.x) as real + Abs(a.y - b.y) as real)
  }

  /** b is the next cell up, down, left or right of a. */
  predicate Beside(a: Location, b: Location) {
    || (a.x == b.x && (b.y == a.y + 1 || b.y == a.y - 1))
    || (a.y == b.y && (b.x == a.x + 1 || b.x == a.x - 1))
  }

  /** Going from a to b over cells that touch. */
  ghost predicate Walk(p: seq<Location>, a: Location, b: Location) {
    |p| > 0 && p[0] == a && p[|p| - 1] == b && forall i :: 0 <= i < |p| - 1 ==> Beside(p[i], p[i + 1])
  }

  lemma {:induction false} NoShorterWalk(p: seq<Location>, a: Location, b: Location)
    requires Walk(p, a, b)
    ensures Manhattan(a, b).value <= (|p| - 1) as real
  {
    if |p| > 1 {
      assert Beside(p[0], p[0 + 1]);
      forall i | 0 <= i < |p| - 2
        ensures Beside(p[1..][i], p[1..][i + 1])
      {
        assert Beside(p[i + 1], p[(i + 1) + 1]);
      }
      NoShorterWalk(p[1..], p[1], b);
    }
  }

  lemma {:induction false} SomeWalk(a: Location, b: Location) returns (p: seq<Location>)
    ensures Walk(p, a, b) && Manhattan(a, b).value == (|p| - 1) as real
    decreases Abs(a.x - b.x) + Abs(a.y - b.y)
  {
    if a == b {
      p := [a];
    } else {
      var c := if a.x < b.x then a.(x := a.x + 1) else if a.x > b.x then a.(x := a.x - 1)
               else if a.y < b.y then a.(y := a.y + 1) else a.(y := a.y - 1);
      var q := SomeWalk(c, b);
      p := [a] + q;
      forall i | 0 <= i < |p| - 1
        ensures Beside(p[i], p[i + 1])
      {
        assert i > 0 ==> Beside(q[i - 1], q[(i - 1) + 1]);
      }
    }
  }

  /** The default heuristic is the least number of unit steps from a to b. */
  lemma ManhattanIsLeast(a: Location, b: Location)
    ensures forall p :: Walk(p, a, b) ==> Manhattan(a, b).value <= (|p| - 1) as real
    ensures exists p :: Walk(p, a, b) && Manhattan(a, b).value == (|p| - 1) as real
  {
    forall p | Walk(p, a, b)
      ensures Manhattan(a, b).value <= (|p| - 1) as real
    {
      NoShorterWalk(p, a, b);
    }
    var q := SomeWalk(a, b);
  }

  /** The Manhattan heuristic is consistent for every goal exactly when no edge is shorter than
      the Manhattan distance of its ends. */
  lemma ManhattanConsistent(g: Graph)
    ensures (forall goal :: Consistent(g, Manhattan, goal))
            <==> forall a, b :: g.Edge(a, b) ==> Manhattan(a, b).value <= g.Weight(a, b)
  {
    if forall goal :: Consistent(g, Manhattan, goal) {
      forall a, b | g.Edge(a, b)
        ensures Manhattan(a, b).value <= g.Weight(a, b)
      {
        assert Consistent(g, Manhattan, b);
      }
    }
    if forall a, b :: g.Edge(a, b) ==> Manhattan(a, b).value <= g.Weight(a, b) {
      forall goal, a, b | g.Edge(a, b)
        ensures Manhattan(a, goal).value <= g.Weight(a, b) + Manhattan(b, goal).value
      {
        assert Manhattan(a, b).value <= g.Weight(a, b);
      }
    }
  }

  /** A graph that fails: one diagonal step at the default cost. */
  lemma DiagonalIsTooCheap(g: Graph)
    requires g.adjacency == map[Location(0, 0) := [Location(1, 1)], Location(1, 1) := []]
    requires g.weights == map[] && g.obstacles == {}
    ensures g.NonNegative() && !Consistent(g, Manhattan, Location(1, 1))
  {
    assert g.adjacency[Location(0, 0)][0] == Location(1, 1);
    assert g.Edge(Location(0, 0), Location(1, 1));
  }
}
