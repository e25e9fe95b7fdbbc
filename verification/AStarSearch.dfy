/** `search` of hj/algo/astar.hpp. */
module AStarSearch {
  import opened AStarGraph
  import opened AStarTree
  import opened AStarQueue

  datatype SearchResult =
    | Found | NotFound | InvalidStart | InvalidGoal | InvalidGraph | InvalidCost
    | InvalidHeuristic | ResourceLimitExceeded | Cancelled

  /** search_options.  `cancel(k)` is the answer of the k-th call of should_cancel; an empty function
      never cancels.  A limit of 0 means no limit. */
  datatype Options = Options(heuristic: Heuristic, maxExpansions: nat, cancel: nat -> bool)

  // ---------------------------------------------------------------- invariants

  /** The priority under which the newest entry of v was queued. */
  ghost function Priority(root: Location, goal: Location, h: Heuristic, cost: map<Location, real>, v: Location): real
    requires v in cost && (v == root || Usable(h(v, goal)))
  {
    if v == root then 0.0 else cost[v] + h(v, goal).value
  }

  /** The newest entry of v is in the queue. */
  ghost predicate Waiting(root: Location, goal: Location, h: Heuristic, cost: map<Location, real>,
                          q: multiset<Entry>, v: Location)
    requires v in cost
  {
    (v == root || Usable(h(v, goal))) && (Priority(root, goal, h, cost, v), v) in q
  }

  /** Every open node has its newest entry in the queue, and no entry is better than its node. */
  ghost predicate Queued(root: Location, goal: Location, h: Heuristic, cost: map<Location, real>,
                         closed: set<Location>, q: multiset<Entry>) {
    && (forall e :: e in q ==>
          e.1 in cost && (e.1 == root || Usable(h(e.1, goal))) && e.0 >= Priority(root, goal, h, cost, e.1))
    && (forall v {:trigger Waiting(root, goal, h, cost, q, v)} :: v in cost && v !in closed ==>
          Waiting(root, goal, h, cost, q, v))
  }

  /** The listed neighbours of u have been looked at. */
  ghost predicate Relaxed(g: Graph, cost: map<Location, real>, u: Location, vs: seq<Location>, exact: bool) {
    && u in cost
    && forall v :: v in vs && g.Edge(u, v) ==> v in cost && (exact ==> cost[v] <= cost[u] + g.Weight(u, v))
  }

  /** Every closed node but `current` has been expanded; `exact` adds that closed costs are final. */
  ghost predicate Expanded(g: Graph, root: Location, cost: map<Location, real>, closed: set<Location>,
                           current: set<Location>, exact: bool) {
    && closed <= cost.Keys
    && (forall u :: u in closed && u !in current ==> u in g.adjacency && Relaxed(g, cost, u, g.adjacency[u], exact))
    && (exact ==> forall u :: u in closed ==> LowerBound(g, root, u, cost[u]))
  }

  /** v was come to from a closed node, and its heuristic value was accepted. */
  ghost predicate ComeTo(goal: Location, h: Heuristic, from: map<Location, Location>, closed: set<Location>, v: Location) {
    v in from && from[v] in closed && Usable(h(v, goal))
  }

  /** Every node with a cost can be reached, and all but the start were come to from a closed node. */
  ghost predicate Traced(g: Graph, root: Location, goal: Location, h: Heuristic, from: map<Location, Location>,
                         cost: map<Location, real>, closed: set<Location>) {
    && (forall v :: v in cost ==> Reachable(g, root, v))
    && (forall v {:trigger ComeTo(goal, h, from, closed, v)} :: v in cost && v != root ==> ComeTo(goal, h, from, closed, v))
  }

  /** Some way from a to v costs no more than c. */
  ghost predicate Within(g: Graph, a: Location, v: Location, c: real) {
    exists q :: IsPath(g, q, a, v) && PathCost(g, q) <= c
  }

  /** Going through v is estimated to cost no more than any way to the goal does. */
  ghost predicate Promising(g: Graph, root: Location, goal: Location, h: Heuristic, v: Location) {
    forall p :: IsPath(g, p, root, goal) ==>
      && h(v, goal).Finite? && h(goal, goal).Finite?
      && Within(g, root, v, PathCost(g, p) + h(goal, goal).value - h(v, goal).value)
  }

  /** The nodes closed so far are worth it when the heuristic is consistent. */
  ghost predicate Focused(g: Graph, root: Location, goal: Location, h: Heuristic, closed: set<Location>, exact: bool) {
    exact ==> forall v :: v in closed ==> Promising(g, root, goal, h, v)
  }

  /** What the search keeps up about costs, for any weights; with no negative weight also the tree. */
  ghost predicate Costed(g: Graph, root: Location, goal: Location, h: Heuristic, from: map<Location, Location>,
                         cost: map<Location, real>, closed: set<Location>, q: multiset<Entry>,
                         current: set<Location>, exact: bool) {
    && Known(g, root, from, cost) && (g.NonNegative() ==> Tree(g, root, from, cost))
    && (exact ==> g.NonNegative() && Consistent(g, h, goal))
    && Queued(root, goal, h, cost, closed, q) && Expanded(g, root, cost, closed, current, exact)
  }

  /** Everything the search keeps up. */
  ghost predicate Invariant(g: Graph, root: Location, goal: Location, h: Heuristic, from: map<Location, Location>,
                            cost: map<Location, real>, closed: set<Location>, q: multiset<Entry>,
                            current: set<Location>, exact: bool) {
    && Costed(g, root, goal, h, from, cost, closed, q, current, exact)
    && Traced(g, root, goal, h, from, cost, closed) && Focused(g, root, goal, h, closed, exact)
  }

  // ---------------------------------------------------------------- relaxation

  lemma CostIsAchieved(g: Graph, root: Location, from: map<Location, Location>, cost: map<Location, real>, u: Location)
    returns (p: seq<Location>)
    requires g.NonNegative() && Tree(g, root, from, cost) && u in cost
    ensures IsPath(g, p, root, u) && PathCost(g, p) <= cost[u]
  {
    assert Rooted(from, root, u);
    var n: nat :| Steps(from, root, u, n);
    WayDownIsPath(g, root, from, cost, u, n);
    p := WayDown(from, root, u, n);
  }

  /** A cost that is already a lower bound is never improved. */
  lemma FinalCostStays(g: Graph, root: Location, from: map<Location, Location>, cost: map<Location, real>,
                       u: Location, v: Location)
    requires g.NonNegative() && Tree(g, root, from, cost) && u in cost && v in cost && g.Edge(u, v)
    requires LowerBound(g, root, v, cost[v])
    ensures cost[v] <= cost[u] + g.Weight(u, v)
  {
    var p := CostIsAchieved(g, root, from, cost, u);
    ExtendPath(g, p, root, u, v);
  }

  lemma RelaxKeepsQueued(root: Location, goal: Location, h: Heuristic, cost: map<Location, real>,
                         closed: set<Location>, q: multiset<Entry>, v: Location, c: real)
    requires Queued(root, goal, h, cost, closed, q) && v != root && Usable(h(v, goal))
    requires v !in cost || c < cost[v]
    ensures Queued(root, goal, h, cost[v := c], closed, q + multiset{(c + h(v, goal).value, v)})
  {
    var cost', q' := cost[v := c], q + multiset{(c + h(v, goal).value, v)};
    assert (c + h(v, goal).value, v) in q';
    forall e | e in q'
      ensures e.1 in cost' && (e.1 == root || Usable(h(e.1, goal))) && e.0 >= Priority(root, goal, h, cost', e.1)
    {
      assert e in q || e == (c + h(v, goal).value, v);
    }
    forall w | w in cost' && w !in closed
      ensures Waiting(root, goal, h, cost', q', w)
    {
      assert w == v || Waiting(root, goal, h, cost, q, w);
    }
  }

  lemma RelaxKeepsExpanded(g: Graph, root: Location, cost: map<Location, real>, closed: set<Location>,
                           current: Location, v: Location, c: real, exact: bool)
    requires Expanded(g, root, cost, closed, {current}, exact)
    requires v !in cost || c < cost[v]
    requires exact ==> v !in closed
    ensures Expanded(g, root, cost[v := c], closed, {current}, exact)
  {
    var cost' := cost[v := c];
    forall u | u in closed && u != current
      ensures Relaxed(g, cost', u, g.adjacency[u], exact)
    {
      assert Relaxed(g, cost, u, g.adjacency[u], exact);
    }
  }

  lemma NextIsReachable(g: Graph, start: Location, u: Location, v: Location)
    requires Reachable(g, start, u) && g.Edge(u, v)
    ensures Reachable(g, start, v)
  {
    var p :| IsPath(g, p, start, u);
    ExtendPath(g, p, start, u, v);
  }

  lemma RelaxKeepsTraced(g: Graph, root: Location, goal: Location, h: Heuristic, from: map<Location, Location>,
                         cost: map<Location, real>, closed: set<Location>, u: Location, v: Location, c: real)
    requires Traced(g, root, goal, h, from, cost, closed) && u in cost && u in closed && g.Edge(u, v) && Usable(h(v, goal))
    ensures Traced(g, root, goal, h, from[v := u], cost[v := c], closed)
  {
    NextIsReachable(g, root, u, v);
    var cost' := cost[v := c];
    forall w | w in cost' && w != root
      ensures ComeTo(goal, h, from[v := u], closed, w)
    {
      assert w == v || ComeTo(goal, h, from, closed, w);
    }
  }

  lemma TracedGrows(g: Graph, root: Location, goal: Location, h: Heuristic, from: map<Location, Location>,
                    cost: map<Location, real>, closed: set<Location>, more: set<Location>)
    requires Traced(g, root, goal, h, from, cost, closed) && closed <= more
    ensures Traced(g, root, goal, h, from, cost, more)
  {
    forall v | v in cost && v != root
      ensures ComeTo(goal, h, from, more, v)
    {
      assert ComeTo(goal, h, from, closed, v);
    }
  }

  /** Costs only go down, the neighbour v of u is accounted for, and u itself keeps its cost. */
  ghost predicate Lowered(g: Graph, cost0: map<Location, real>, cost: map<Location, real>, u: Location, v: Location, exact: bool) {
    && (forall w :: w in cost0 ==> w in cost && cost[w] <= cost0[w])
    && u in cost0
    && (g.Edge(u, v) ==> v in cost && (exact ==> cost[v] <= cost[u] + g.Weight(u, v)))
    && (exact ==> cost[u] == cost0[u])
  }

  lemma MoreRelaxed(g: Graph, cost0: map<Location, real>, cost: map<Location, real>, u: Location, vs: seq<Location>,
                    i: nat, exact: bool)
    requires i < |vs| && Relaxed(g, cost0, u, vs[..i], exact) && Lowered(g, cost0, cost, u, vs[i], exact)
    ensures Relaxed(g, cost, u, vs[..i + 1], exact)
  {
    assert vs[..i + 1] == vs[..i] + [vs[i]];
  }

  lemma AllRelaxed(g: Graph, root: Location, cost: map<Location, real>, closed: set<Location>, u: Location, exact: bool)
    requires Expanded(g, root, cost, closed, {u}, exact) && u in g.adjacency
    requires Relaxed(g, cost, u, g.adjacency[u][..|g.adjacency[u]|], exact)
    ensures Expanded(g, root, cost, closed, {}, exact)
  {
    assert g.adjacency[u][..|g.adjacency[u]|] == g.adjacency[u];
  }

  lemma RelaxKeepsCosted(g: Graph, root: Location, goal: Location, h: Heuristic, from: map<Location, Location>,
                         cost: map<Location, real>, closed: set<Location>, q: multiset<Entry>, u: Location, v: Location,
                         c: real, exact: bool)
    requires Costed(g, root, goal, h, from, cost, closed, q, {u}, exact)
    requires u in cost && g.Edge(u, v) && c == cost[u] + g.Weight(u, v) && c >= 0.0 && Usable(h(v, goal))
    requires v !in cost || c < cost[v]
    ensures Costed(g, root, goal, h, from[v := u], cost[v := c], closed, q + multiset{(c + h(v, goal).value, v)}, {u}, exact)
    ensures Lowered(g, cost, cost[v := c], u, v, exact)
  {
    RelaxKeepsKnown(g, root, from, cost, u, v, c);
    if g.NonNegative() {
      RelaxKeepsTree(g, root, from, cost, u, v);
    }
    if exact && v in closed {
      FinalCostStays(g, root, from, cost, u, v);
    }
    RelaxKeepsQueued(root, goal, h, cost, closed, q, v, c);
    RelaxKeepsExpanded(g, root, cost, closed, u, v, c, exact);
  }

  /** One successful relaxation (hj/algo/astar.hpp:390-398) keeps the whole invariant. */
  lemma Relax(g: Graph, root: Location, goal: Location, h: Heuristic, from: map<Location, Location>,
              cost: map<Location, real>, closed: set<Location>, q: multiset<Entry>, q': multiset<Entry>,
              u: Location, v: Location, c: real, exact: bool)
    requires Invariant(g, root, goal, h, from, cost, closed, q, {u}, exact)
    requires u in cost && u in closed && g.Edge(u, v) && Usable(h(v, goal))
    requires c == cost[u] + g.Weight(u, v) && c >= 0.0
    requires v !in cost || c < cost[v]
    requires q' == q + multiset{(c + h(v, goal).value, v)}
    ensures Invariant(g, root, goal, h, from[v := u], cost[v := c], closed, q', {u}, exact)
    ensures Lowered(g, cost, cost[v := c], u, v, exact)
  {
    RelaxKeepsCosted(g, root, goal, h, from, cost, closed, q, u, v, c, exact);
    RelaxKeepsTraced(g, root, goal, h, from, cost, closed, u, v, c);
  }

  // ---------------------------------------------------------------- settling

  /** The index of the first node of a path that is not closed. */
  ghost function FirstOpen(p: seq<Location>, closed: set<Location>): (j: nat)
    requires |p| > 0 && p[|p| - 1] !in closed
    ensures j < |p| && p[j] !in closed && forall i :: 0 <= i < j ==> p[i] in closed
  {
    if p[0] !in closed then 0 else 1 + FirstOpen(p[1..], closed)
  }

  /** The least entry is no worse than any path to a node still open: the first open node on that path waits. */
  lemma TopIsBelow(g: Graph, root: Location, goal: Location, h: Heuristic, cost: map<Location, real>,
                   closed: set<Location>, q: multiset<Entry>, top: Entry, p: seq<Location>, v: Location)
    requires Consistent(g, h, goal) && IsPath(g, p, root, v)
    requires root in closed && Expanded(g, root, cost, closed, {}, true) && Queued(root, goal, h, cost, closed, q)
    requires Least(top, q) && v !in closed
    ensures h(v, goal).Finite? && top.0 <= PathCost(g, p) + h(v, goal).value
  {
    var j := FirstOpen(p, closed);
    var w := p[j];
    assert j > 0;
    PrefixIsPath(g, p, root, v, j - 1);
    PrefixIsPath(g, p, root, v, j);
    assert Relaxed(g, cost, p[j - 1], g.adjacency[p[j - 1]], true);
    assert cost[w] <= PathCost(g, p[..j + 1]);
    ConsistentAlong(g, h, goal, p, root, v, j);
    assert Waiting(root, goal, h, cost, q, w);
    assert !Precedes((Priority(root, goal, h, cost, w), w), top);
  }

  /** The heart of A*: when a node is taken from the queue still open, its cost is already minimal. */
  lemma TakenIsFinal(g: Graph, root: Location, goal: Location, h: Heuristic, cost: map<Location, real>,
                     closed: set<Location>, q: multiset<Entry>, top: Entry)
    requires g.NonNegative() && Consistent(g, h, goal)
    requires root in closed && Expanded(g, root, cost, closed, {}, true) && Queued(root, goal, h, cost, closed, q)
    requires Least(top, q) && top.1 !in closed
    ensures LowerBound(g, root, top.1, cost[top.1])
  {
    var v := top.1;
    forall p | IsPath(g, p, root, v)
      ensures cost[v] <= PathCost(g, p)
    {
      TopIsBelow(g, root, goal, h, cost, closed, q, top, p, v);
    }
  }

  /** A node taken from the queue lies on no way that is estimated dearer than a way to the goal is:
      a consistent heuristic keeps the search away from all others. */
  lemma TakenIsPromising(g: Graph, root: Location, goal: Location, h: Heuristic, from: map<Location, Location>,
                         cost: map<Location, real>, closed: set<Location>, q: multiset<Entry>, top: Entry)
    requires Invariant(g, root, goal, h, from, cost, closed, q, {}, true) && root in closed && goal !in closed
    requires Least(top, q) && top.1 !in closed
    ensures Promising(g, root, goal, h, top.1)
  {
    var v := top.1;
    forall p | IsPath(g, p, root, goal)
      ensures h(v, goal).Finite? && h(goal, goal).Finite?
      ensures Within(g, root, v, PathCost(g, p) + h(goal, goal).value - h(v, goal).value)
    {
      TopIsBelow(g, root, goal, h, cost, closed, q, top, p, goal);
      var w := CostIsAchieved(g, root, from, cost, v);
    }
  }

  lemma StayingIsFree(g: Graph, start: Location)
    requires g.Walkable(start)
    ensures IsPath(g, [start], start, start)
    ensures g.NonNegative() ==> LowerBound(g, start, start, PathCost(g, [start]))
  {
    if g.NonNegative() {
      forall p | IsPath(g, p, start, start)
        ensures PathCost(g, p) >= 0.0
      {
        PathCostNonNegative(g, p, start, start);
      }
    }
  }

  lemma RootIsPromising(g: Graph, root: Location, goal: Location, h: Heuristic)
    requires Consistent(g, h, goal) && g.Walkable(root) && root != goal
    ensures Promising(g, root, goal, h, root)
  {
    StayingIsFree(g, root);
    forall p | IsPath(g, p, root, goal)
      ensures h(root, goal).Finite? && h(goal, goal).Finite?
      ensures Within(g, root, root, PathCost(g, p) + h(goal, goal).value - h(root, goal).value)
    {
      ConsistentAlong(g, h, goal, p, root, goal, 0);
      assert p[..0 + 1] == [root];
    }
  }

  /** With an empty queue every known node is closed and expanded, so nothing new can be reached. */
  lemma {:induction false} OnlyKnownReachable(g: Graph, root: Location, cost: map<Location, real>, closed: set<Location>,
                                              exact: bool, p: seq<Location>, v: Location)
    requires Expanded(g, root, cost, closed, {}, exact) && root in cost && closed == cost.Keys && IsPath(g, p, root, v)
    ensures v in cost
    decreases |p|
  {
    if |p| > 1 {
      var n := |p| - 2;
      PrefixIsPath(g, p, root, v, n);
      PrefixIsPath(g, p, root, v, n + 1);
      OnlyKnownReachable(g, root, cost, closed, exact, p[..n + 1], p[n]);
      assert Relaxed(g, cost, p[n], g.adjacency[p[n]], exact);
    }
  }

  // ---------------------------------------------------------------- the search

  /** A cheaper way to `next` through `current` (hj/algo/astar.hpp:392-398). */
  method Improve(g: Graph, root: Location, goal: Location, h: Heuristic, current: Location, next: Location, newCost: real,
                 from0: map<Location, Location>, cost0: map<Location, real>, ghost closed: set<Location>,
                 frontier: PriorityQueue, ghost exact: bool)
    returns (status: SearchResult, from: map<Location, Location>, cost: map<Location, real>)
    requires Invariant(g, root, goal, h, from0, cost0, closed, frontier.elements, {current}, exact)
    requires current in cost0 && current in closed && g.Edge(current, next)
    requires newCost == cost0[current] + g.Weight(current, next) && newCost >= 0.0
    requires next !in cost0 || newCost < cost0[next]
    modifies frontier
    ensures status == Found ==>
              && Invariant(g, root, goal, h, from, cost, closed, frontier.elements, {current}, exact)
              && Lowered(g, cost0, cost, current, next, exact)
    ensures status == Found ==> Usable(h(next, goal)) && from == from0[next := current] && cost == cost0[next := newCost]
    ensures status == Found ==> frontier.elements == old(frontier.elements) + multiset{(newCost + h(next, goal).value, next)}
    ensures status != Found ==> status == InvalidHeuristic && next != root && !Usable(h(next, goal))
  {
    cost := cost0[next := newCost];
    from := from0[next := current];
    status := Found;
    var hv := h(next, goal);
    if !hv.Finite? || hv.value < 0.0 {
      return InvalidHeuristic, from, cost;
    }
    ghost var q := frontier.elements;
    frontier.Put(next, newCost + hv.value);
    Relax(g, root, goal, h, from0, cost0, closed, q, frontier.elements, current, next, newCost, exact);
  }

  /** One neighbour (hj/algo/astar.hpp:378-399); Found stands for "go on". */
  method RelaxNeighbor(g: Graph, root: Location, goal: Location, h: Heuristic, current: Location, next: Location,
                       from0: map<Location, Location>, cost0: map<Location, real>, ghost closed: set<Location>,
                       frontier: PriorityQueue, ghost exact: bool)
    returns (status: SearchResult, from: map<Location, Location>, cost: map<Location, real>)
    requires Invariant(g, root, goal, h, from0, cost0, closed, frontier.elements, {current}, exact)
    requires current in cost0 && current in closed && next in g.adjacency[current]
    modifies frontier
    ensures status == Found || status == InvalidCost || status == InvalidHeuristic
    ensures status == Found ==>
              && Invariant(g, root, goal, h, from, cost, closed, frontier.elements, {current}, exact)
              && Lowered(g, cost0, cost, current, next, exact)
    ensures status == InvalidCost ==> !g.NonNegative()
    ensures status == InvalidHeuristic ==> next != root && g.Edge(current, next) && !Usable(h(next, goal))
  {
    from, cost, status := from0, cost0, Found;
    if !g.Walkable(next) {
      return;
    }
    var edgeCost := g.CostOf(current, next);
    if !edgeCost.Finite? {
      return;
    }
    var newCost := cost[current] + edgeCost.value;
    assert g.Edge(current, next) && newCost == cost0[current] + g.Weight(current, next);
    if newCost < 0.0 {
      return InvalidCost, from, cost;
    }
    if next !in cost || newCost < cost[next] {
      status, from, cost := Improve(g, root, goal, h, current, next, newCost, from, cost, closed, frontier, exact);
    }
  }

  /** The loop over the neighbours of a node just closed (hj/algo/astar.hpp:376-400). */
  method ExpandNode(g: Graph, root: Location, goal: Location, h: Heuristic, current: Location,
                    from0: map<Location, Location>, cost0: map<Location, real>, ghost closed: set<Location>,
                    frontier: PriorityQueue, ghost exact: bool)
    returns (status: SearchResult, from: map<Location, Location>, cost: map<Location, real>)
    requires Invariant(g, root, goal, h, from0, cost0, closed, frontier.elements, {current}, exact) && current in closed
    modifies frontier
    ensures status == Found || status == InvalidCost || status == InvalidHeuristic
    ensures status == Found ==> Invariant(g, root, goal, h, from, cost, closed, frontier.elements, {}, exact)
    ensures status == InvalidCost ==> !g.NonNegative()
    ensures status == InvalidHeuristic ==> exists v :: v != root && g.Edge(current, v) && !Usable(h(v, goal))
  {
    from, cost, status := from0, cost0, Found;
    var neighbors := g.adjacency[current];
    var i := 0;
    while i < |neighbors|
      invariant i <= |neighbors| && status == Found
      invariant Invariant(g, root, goal, h, from, cost, closed, frontier.elements, {current}, exact)
      invariant Relaxed(g, cost, current, neighbors[..i], exact)
    {
      ghost var costBefore := cost;
      status, from, cost := RelaxNeighbor(g, root, goal, h, current, neighbors[i], from, cost, closed, frontier, exact);
      if status != Found {
        return;
      }
      MoreRelaxed(g, costBefore, cost, current, neighbors, i, exact);
      i := i + 1;
    }
    AllRelaxed(g, root, cost, closed, current, exact);
  }

  function Reverse(p: seq<Location>): (r: seq<Location>)
    ensures |r| == |p|
  {
    if p == [] then [] else Reverse(p[1..]) + [p[0]]
  }

  /** `acc` lists the nodes left behind on the way up from goal to v. */
  ghost predicate Climbed(from: map<Location, Location>, root: Location, goal: Location, acc: seq<Location>, v: Location) {
    && (forall n: nat {:trigger Steps(from, root, v, n)} :: Steps(from, root, v, n) ==>
          && Steps(from, root, goal, n + |acc|)
          && WayDown(from, root, goal, n + |acc|) == WayDown(from, root, v, n) + Reverse(acc))
    && (forall n: nat {:trigger Steps(from, root, goal, n)} :: Steps(from, root, goal, n) ==>
          n >= |acc| && Steps(from, root, v, n - |acc|))
  }

  lemma ClimbBegins(from: map<Location, Location>, root: Location, goal: Location)
    ensures Climbed(from, root, goal, [], goal)
  {
    forall n: nat | Steps(from, root, goal, n)
      ensures WayDown(from, root, goal, n + 0) == WayDown(from, root, goal, n) + Reverse([])
    {
    }
  }

  lemma {:induction false} ReverseLast(p: seq<Location>, v: Location)
    ensures Reverse(p + [v]) == [v] + Reverse(p)
  {
    if p != [] {
      assert (p + [v])[1..] == p[1..] + [v];
      ReverseLast(p[1..], v);
    }
  }

  lemma Climb(from: map<Location, Location>, root: Location, goal: Location, acc: seq<Location>, v: Location)
    requires Climbed(from, root, goal, acc, v) && v != root && v in from
    ensures Climbed(from, root, goal, acc + [v], from[v])
  {
    var acc', w := acc + [v], from[v];
    forall n: nat | Steps(from, root, w, n)
      ensures Steps(from, root, goal, n + |acc'|)
      ensures WayDown(from, root, goal, n + |acc'|) == WayDown(from, root, w, n) + Reverse(acc')
    {
      assert Steps(from, root, v, n + 1);
      ReverseLast(acc, v);
      assert n + 1 + |acc| == n + |acc'|;
    }
    forall n: nat | Steps(from, root, goal, n)
      ensures n >= |acc'| && Steps(from, root, w, n - |acc'|)
    {
      assert Steps(from, root, v, n - |acc|);
    }
  }

  /** The path is the way down the tree to the goal. */
  ghost predicate ReadsOff(from: map<Location, Location>, root: Location, goal: Location, path: seq<Location>) {
    exists n: nat :: Steps(from, root, goal, n) && path == WayDown(from, root, goal, n)
  }

  /** A climb longer than the map has entries is impossible in a tree. */
  lemma ClimbIsShort(g: Graph, root: Location, goal: Location, from: map<Location, Location>, cost: map<Location, real>,
                     acc: seq<Location>, v: Location)
    requires Tree(g, root, from, cost) && goal in cost && Climbed(from, root, goal, acc, v)
    ensures |acc| < |from|
  {
    assert Rooted(from, root, goal);
    var n: nat :| Steps(from, root, goal, n);
    WayDownIsSimple(from, root, goal, n);
  }

  lemma ClimbEnds(from: map<Location, Location>, root: Location, goal: Location, acc: seq<Location>)
    requires Climbed(from, root, goal, acc, root)
    ensures ReadsOff(from, root, goal, Reverse(acc + [root]))
  {
    assert Steps(from, root, root, 0);
    assert Steps(from, root, goal, 0 + |acc|);
    ReverseLast(acc, root);
  }

  /** The walk back along came_from (hj/algo/astar.hpp:406-423). */
  method ReconstructPath(g: Graph, root: Location, goal: Location, from: map<Location, Location>, ghost cost: map<Location, real>)
    returns (result: SearchResult, path: seq<Location>)
    requires Known(g, root, from, cost) && (g.NonNegative() ==> Tree(g, root, from, cost)) && goal in from
    ensures result == Found || result == InvalidGraph
    ensures result == Found ==> ReadsOff(from, root, goal, path)
    ensures result == InvalidGraph ==> !g.NonNegative()
  {
    path := [];
    var current, maxHops, hops := goal, |from| + 1, 0;
    ClimbBegins(from, root, goal);
    while current != root
      invariant hops == |path| <= maxHops && current in from
      invariant Climbed(from, root, goal, path, current)
      decreases maxHops - hops
    {
      assert HasParent(g, from, cost, current);
      Climb(from, root, goal, path, current);
      path := path + [current];
      hops := hops + 1;
      if g.NonNegative() {
        ClimbIsShort(g, root, goal, from, cost, path, from[current]);
      }
      if hops > maxHops {
        return InvalidGraph, path;
      }
      if current !in from {
        return InvalidGraph, path;
      }
      current := from[current];
    }
    ClimbEnds(from, root, goal, path);
    path := path + [root];
    path := Reverse(path);
    return Found, path;
  }

  /** What the end of the main loop knows about the goal. */
  ghost predicate Explored(g: Graph, start: Location, goal: Location, h: Heuristic, from: map<Location, Location>,
                           cost: map<Location, real>) {
    && Known(g, start, from, cost) && (g.NonNegative() ==> Tree(g, start, from, cost))
    && (goal in cost && g.NonNegative() && Consistent(g, h, goal) ==> LowerBound(g, start, goal, cost[goal]))
    && (goal !in cost ==> !Reachable(g, start, goal))
  }

  /** The nodes gone through before the search stopped. */
  ghost predicate Visited(g: Graph, start: Location, goal: Location, h: Heuristic, visited: set<Location>) {
    && start in visited && goal !in visited && visited <= g.adjacency.Keys
    && (forall v :: v in visited ==> Reachable(g, start, v))
    && (g.NonNegative() && Consistent(g, h, goal) ==> forall v :: v in visited ==> Promising(g, start, goal, h, v))
  }

  /** For each of n nodes cancellation was asked for once and answered no, and the limit let it pass. */
  ghost predicate Passed(options: Options, n: nat) {
    && (forall k :: 0 <= k < n ==> !options.cancel(k))
    && (options.maxExpansions > 0 ==> n <= options.maxExpansions)
  }

  /** What the questions asked on n nodes have to do with the result. */
  ghost predicate Answered(options: Options, result: SearchResult, n: nat) {
    match result
    case Cancelled => n > 0 && Passed(options, n - 1) && options.cancel(n - 1)
    case ResourceLimitExceeded =>
      n > 0 && Passed(options, n - 1) && !options.cancel(n - 1) && 0 < options.maxExpansions == n - 1
    case _ => Passed(options, n)
  }

  /** The nodes of the search have been expanded: their neighbours have costs, all found from visited nodes. */
  ghost predicate Swept(g: Graph, start: Location, goal: Location, h: Heuristic, from: map<Location, Location>,
                        cost: map<Location, real>, visited: set<Location>) {
    && Traced(g, start, goal, h, from, cost, visited + {goal})
    && (forall u, v :: u in visited && g.Edge(u, v) ==> v in cost)
    && (goal !in cost ==> visited == cost.Keys)
  }

  lemma VisitedIsFewer(g: Graph, start: Location, goal: Location, h: Heuristic, visited: set<Location>)
    requires Visited(g, start, goal, h, visited) && g.Walkable(goal)
    ensures |visited| < |g.adjacency|
  {
    var others := g.adjacency.Keys - visited;
    assert goal in others;
    assert g.adjacency.Keys == visited + others;
  }

  lemma ClosedIsVisited(g: Graph, root: Location, goal: Location, h: Heuristic, from: map<Location, Location>,
                        cost: map<Location, real>, closed: set<Location>, q: multiset<Entry>, current: set<Location>,
                        exact: bool)
    requires Invariant(g, root, goal, h, from, cost, closed, q, current, exact) && root in closed && root != goal
    requires exact == (g.NonNegative() && Consistent(g, h, goal))
    ensures Visited(g, root, goal, h, closed - {goal})
    ensures goal !in closed ==> Visited(g, root, goal, h, closed)
  {
    assert goal !in closed ==> closed - {goal} == closed;
  }

  lemma ExpandedIsSwept(g: Graph, root: Location, goal: Location, h: Heuristic, from: map<Location, Location>,
                        cost: map<Location, real>, closed: set<Location>, q: multiset<Entry>, exact: bool)
    requires Invariant(g, root, goal, h, from, cost, closed, q, {}, exact)
    requires goal in cost || closed == cost.Keys
    ensures Swept(g, root, goal, h, from, cost, closed)
  {
    TracedGrows(g, root, goal, h, from, cost, closed, closed + {goal});
    forall u, v | u in closed && g.Edge(u, v)
      ensures v in cost
    {
      assert Relaxed(g, cost, u, g.adjacency[u], exact);
    }
  }

  lemma Begins(g: Graph, root: Location, goal: Location, h: Heuristic, exact: bool)
    requires g.Walkable(root) && (exact ==> g.NonNegative() && Consistent(g, h, goal))
    ensures Invariant(g, root, goal, h, map[root := root], map[root := 0.0], {}, multiset{(0.0, root)}, {}, exact)
  {
    assert Steps(map[root := root], root, root, 0);
    assert IsPath(g, [root], root, root);
  }

  /** An entry of a node already closed can go. */
  lemma DropStale(root: Location, goal: Location, h: Heuristic, cost: map<Location, real>, closed: set<Location>,
                  q: multiset<Entry>, top: Entry)
    requires Queued(root, goal, h, cost, closed, q) && top.1 in closed
    ensures Queued(root, goal, h, cost, closed, q - multiset{top})
  {
    var q' := q - multiset{top};
    forall w | w in cost && w !in closed
      ensures Waiting(root, goal, h, cost, q', w)
    {
      assert Waiting(root, goal, h, cost, q, w);
    }
  }

  /** The start is the first node to be closed. */
  ghost predicate Begun(root: Location, closed: set<Location>, q: multiset<Entry>) {
    root in closed || (closed == {} && q == multiset{(0.0, root)})
  }

  /** Taking a node from the queue and closing it. */
  lemma Close(g: Graph, root: Location, goal: Location, h: Heuristic, from: map<Location, Location>,
              cost: map<Location, real>, closed: set<Location>, q: multiset<Entry>, top: Entry, exact: bool)
    requires Invariant(g, root, goal, h, from, cost, closed, q, {}, exact) && Least(top, q) && top.1 !in closed
    requires goal !in closed && root != goal && Begun(root, closed, q)
    ensures Invariant(g, root, goal, h, from, cost, closed + {top.1}, q - multiset{top}, {top.1}, exact)
    ensures top.1 in cost && (exact ==> LowerBound(g, root, top.1, cost[top.1]))
    ensures root in closed + {top.1}
  {
    if exact {
      if root in closed {
        TakenIsFinal(g, root, goal, h, cost, closed, q, top);
        TakenIsPromising(g, root, goal, h, from, cost, closed, q, top);
      } else {
        StayingIsFree(g, root);
        RootIsPromising(g, root, goal, h);
      }
    }
    assert Queued(root, goal, h, cost, closed + {top.1}, q) by {
      forall w | w in cost && w !in closed + {top.1}
        ensures Waiting(root, goal, h, cost, q, w)
      {
        assert Waiting(root, goal, h, cost, q, w);
      }
    }
    DropStale(root, goal, h, cost, closed + {top.1}, q, top);
    TracedGrows(g, root, goal, h, from, cost, closed, closed + {top.1});
  }

  /** An empty queue with the goal not closed means that the goal cannot be reached. */
  lemma Exhausted(g: Graph, root: Location, goal: Location, h: Heuristic, from: map<Location, Location>,
                  cost: map<Location, real>, closed: set<Location>, q: multiset<Entry>, exact: bool)
    requires Invariant(g, root, goal, h, from, cost, closed, q, {}, exact) && q == multiset{} && goal !in closed
    ensures Explored(g, root, goal, h, from, cost) && Swept(g, root, goal, h, from, cost, closed) && goal !in cost
    ensures forall v :: Reachable(g, root, v) ==> v in closed
  {
    forall w | w in cost
      ensures w in closed
    {
      assert w !in closed ==> Waiting(root, goal, h, cost, q, w);
    }
    assert closed == cost.Keys;
    ExpandedIsSwept(g, root, goal, h, from, cost, closed, q, exact);
    forall v | Reachable(g, root, v)
      ensures v in closed
    {
      var p :| IsPath(g, p, root, v);
      OnlyKnownReachable(g, root, cost, closed, exact, p, v);
    }
  }

  /** One entry leaves the queue; `open` when its node has not been closed before. */
  method TakeOpen(g: Graph, root: Location, goal: Location, h: Heuristic, ghost from: map<Location, Location>,
                  ghost cost: map<Location, real>, closed: set<Location>, frontier: PriorityQueue, ghost exact: bool)
    returns (current: Location, open: bool)
    requires Invariant(g, root, goal, h, from, cost, closed, frontier.elements, {}, exact)
    requires frontier.elements != multiset{} && Begun(root, closed, frontier.elements)
    requires goal !in closed && root != goal
    requires exact == (g.NonNegative() && Consistent(g, h, goal))
    modifies frontier
    ensures |frontier.elements| < |old(frontier.elements)| && open == (current !in closed)
    ensures !open ==> Invariant(g, root, goal, h, from, cost, closed, frontier.elements, {}, exact) && Begun(root, closed, frontier.elements)
    ensures open ==> Invariant(g, root, goal, h, from, cost, closed + {current}, frontier.elements, {current}, exact)
    ensures open ==> current in g.adjacency && root in closed + {current}
    ensures open ==> Begun(root, closed + {current}, frontier.elements)
    ensures open ==> Visited(g, root, goal, h, if current == goal then closed else closed + {current})
    ensures open && current == goal ==>
              && goal in cost && root in closed && Explored(g, root, goal, h, from, cost)
              && Swept(g, root, goal, h, from, cost, closed)
  {
    ghost var q := frontier.elements;
    var node, top := frontier.Get();
    current, open := node, node !in closed;
    if open {
      if node == goal {
        ExpandedIsSwept(g, root, goal, h, from, cost, closed, q, exact);
      }
      Close(g, root, goal, h, from, cost, closed, q, top, exact);
      ClosedIsVisited(g, root, goal, h, from, cost, closed + {node}, frontier.elements, {node}, exact);
      assert node == goal ==> closed + {node} - {goal} == closed;
    } else {
      DropStale(root, goal, h, cost, closed, q, top);
    }
  }

  /** The questions about a node just closed (hj/algo/astar.hpp:370-374); Found stands for "go on".
      `consulted` nodes were asked about before. */
  method Ask(options: Options, consulted: nat, expansions0: nat) returns (result: SearchResult, expansions: nat)
    requires Passed(options, consulted)
    requires expansions0 == if options.maxExpansions > 0 then consulted else 0
    ensures result.Found? || result.Cancelled? || result.ResourceLimitExceeded?
    ensures result == Cancelled <==> options.cancel(consulted)
    ensures result == Found <==> !options.cancel(consulted) && (options.maxExpansions == 0 || consulted < options.maxExpansions)
    ensures Answered(options, result, consulted + 1)
    ensures expansions == if options.maxExpansions > 0 && !options.cancel(consulted) then consulted + 1 else expansions0
  {
    expansions := expansions0;
    if options.cancel(consulted) {
      return Cancelled, expansions;
    }
    if options.maxExpansions != 0 {
      expansions := expansions + 1;
      if expansions > options.maxExpansions {
        return ResourceLimitExceeded, expansions;
      }
    }
    return Found, expansions;
  }

  /** What is done with a node just closed (hj/algo/astar.hpp:370-400); Found stands for "go on". */
  method VisitNode(g: Graph, root: Location, goal: Location, options: Options, current: Location,
                   from0: map<Location, Location>, cost0: map<Location, real>, ghost closed: set<Location>,
                   frontier: PriorityQueue, consulted: nat, expansions0: nat, ghost exact: bool)
    returns (result: SearchResult, from: map<Location, Location>, cost: map<Location, real>, expansions: nat)
    requires Invariant(g, root, goal, options.heuristic, from0, cost0, closed, frontier.elements, {current}, exact)
    requires current in closed && |closed| == consulted + 1 && Answered(options, Found, consulted)
    requires expansions0 == if options.maxExpansions > 0 then consulted else 0
    modifies frontier
    ensures result.Found? || result.Cancelled? || result.ResourceLimitExceeded? || result.InvalidCost? || result.InvalidHeuristic?
    ensures Answered(options, result, |closed|)
    ensures result == Found ==>
              && Invariant(g, root, goal, options.heuristic, from, cost, closed, frontier.elements, {}, exact)
              && expansions == if options.maxExpansions > 0 then consulted + 1 else 0
    ensures result == InvalidCost ==> !g.NonNegative()
    ensures result == InvalidHeuristic ==> exists v :: v != root && g.Edge(current, v) && !Usable(options.heuristic(v, goal))
  {
    from, cost := from0, cost0;
    result, expansions := Ask(options, consulted, expansions0);
    if result == Found {
      result, from, cost := ExpandNode(g, root, goal, options.heuristic, current, from, cost, closed, frontier, exact);
    }
  }

  /** The invariant of the main loop: the count of questions is the number of closed nodes. */
  ghost predicate Going(g: Graph, start: Location, goal: Location, options: Options, from: map<Location, Location>,
                        cost: map<Location, real>, closed: set<Location>, q: multiset<Entry>, consulted: nat,
                        expansions: nat, exact: bool) {
    && Invariant(g, start, goal, options.heuristic, from, cost, closed, q, {}, exact)
    && goal !in closed && Begun(start, closed, q)
    && consulted == |closed| && Answered(options, Found, consulted)
    && expansions == if options.maxExpansions > 0 then consulted else 0
  }

  /** How the main loop ends; Found means that it ran to its end. */
  ghost predicate Ended(g: Graph, start: Location, goal: Location, options: Options, result: SearchResult,
                        from: map<Location, Location>, cost: map<Location, real>, visited: set<Location>) {
    && (result.Found? || result.Cancelled? || result.ResourceLimitExceeded? || result.InvalidCost? || result.InvalidHeuristic?)
    && Visited(g, start, goal, options.heuristic, visited) && Answered(options, result, |visited|)
    && (result == Found ==> Explored(g, start, goal, options.heuristic, from, cost)
                            && Swept(g, start, goal, options.heuristic, from, cost, visited))
    && (result == Found && goal !in cost ==> forall v :: Reachable(g, start, v) ==> v in visited)
    && (result == InvalidCost ==> !g.NonNegative())
    && (result == InvalidHeuristic ==>
          exists u, v :: u in visited && v != start && g.Edge(u, v) && !Usable(options.heuristic(v, goal)))
  }

  /** One round of the main loop (hj/algo/astar.hpp:364-400); `ended` when it returns or breaks. */
  method Round(g: Graph, start: Location, goal: Location, options: Options, from0: map<Location, Location>,
               cost0: map<Location, real>, closed0: set<Location>, frontier: PriorityQueue, consulted0: nat,
               expansions0: nat, ghost exact: bool)
    returns (result: SearchResult, ended: bool, from: map<Location, Location>, cost: map<Location, real>,
             closed: set<Location>, consulted: nat, expansions: nat, ghost visited: set<Location>)
    requires Going(g, start, goal, options, from0, cost0, closed0, frontier.elements, consulted0, expansions0, exact)
    requires frontier.elements != multiset{} && start != goal
    requires exact == (g.NonNegative() && Consistent(g, options.heuristic, goal))
    modifies frontier
    ensures ended ==> Ended(g, start, goal, options, result, from, cost, visited)
    ensures !ended ==> Going(g, start, goal, options, from, cost, closed, frontier.elements, consulted, expansions, exact)
    ensures !ended ==> if closed == closed0 then |frontier.elements| < |old(frontier.elements)|
                       else closed0 < closed <= g.adjacency.Keys
  {
    from, cost, closed, consulted, expansions := from0, cost0, closed0, consulted0, expansions0;
    result, ended, visited := Found, false, closed0;
    var current, open := TakeOpen(g, start, goal, options.heuristic, from, cost, closed, frontier, exact);
    if !open {
      return;
    }
    closed := closed + {current};
    if current == goal {
      ended := true;
      return;
    }
    visited, consulted := closed, consulted + 1;
    result, from, cost, expansions :=
      VisitNode(g, start, goal, options, current, from, cost, closed, frontier, consulted - 1, expansions, exact);
    ended := result != Found;
  }

  /** The main loop (hj/algo/astar.hpp:350-401). */
  method Explore(g: Graph, start: Location, goal: Location, options: Options)
    returns (result: SearchResult, from: map<Location, Location>, cost: map<Location, real>, ghost visited: set<Location>)
    requires g.Walkable(start) && g.Walkable(goal) && start != goal
    ensures Ended(g, start, goal, options, result, from, cost, visited)
  {
    ghost var exact := g.NonNegative() && Consistent(g, options.heuristic, goal);
    var frontier := new PriorityQueue();
    frontier.Put(start, 0.0);
    from, cost := map[start := start], map[start := 0.0];
    var closed: set<Location> := {};
    var expansions, consulted, ended := 0, 0, false;
    Begins(g, start, goal, options.heuristic, exact);
    while frontier.elements != multiset{}
      invariant fresh(frontier)
      invariant Going(g, start, goal, options, from, cost, closed, frontier.elements, consulted, expansions, exact)
      decreases g.adjacency.Keys - closed, |frontier.elements|
    {
      result, ended, from, cost, closed, consulted, expansions, visited :=
        Round(g, start, goal, options, from, cost, closed, frontier, consulted, expansions, exact);
      if ended {
        return;
      }
    }
    Exhausted(g, start, goal, options.heuristic, from, cost, closed, frontier.elements, exact);
    ClosedIsVisited(g, start, goal, options.heuristic, from, cost, closed, frontier.elements, {}, exact);
    result, visited := Found, closed;
  }

  /** The result of a search, in terms of paths alone. */
  ghost predicate Correct(g: Graph, start: Location, goal: Location, h: Heuristic, result: SearchResult, path: seq<Location>) {
    && (result == Found ==> IsPath(g, path, start, goal) && Simple(path))
    && (result == Found && g.NonNegative() && Consistent(g, h, goal) ==> LowerBound(g, start, goal, PathCost(g, path)))
    && (result == NotFound ==> !Reachable(g, start, goal))
    && (result == InvalidCost || result == InvalidGraph ==> !g.NonNegative())
    && (result == InvalidHeuristic ==> exists v :: v != start && Reachable(g, start, v) && !Usable(h(v, goal)))
  }

  lemma PathIsCorrect(g: Graph, start: Location, goal: Location, h: Heuristic, from: map<Location, Location>,
                      cost: map<Location, real>, path: seq<Location>)
    requires Explored(g, start, goal, h, from, cost) && goal in cost
    requires ReadsOff(from, start, goal, path)
    ensures Correct(g, start, goal, h, Found, path)
  {
    var n: nat :| Steps(from, start, goal, n) && path == WayDown(from, start, goal, n);
    WayDownIsPath(g, start, from, cost, goal, n);
    WayDownIsSimple(from, start, goal, n);
  }

  lemma StepIsVisited(g: Graph, start: Location, goal: Location, h: Heuristic, from: map<Location, Location>,
                      cost: map<Location, real>, n: nat, visited: set<Location>, i: nat)
    requires from.Keys == cost.Keys && Swept(g, start, goal, h, from, cost, visited)
    requires Steps(from, start, goal, n) && 0 < i <= n
    ensures WayDown(from, start, goal, n)[i - 1] in visited && Usable(h(WayDown(from, start, goal, n)[i], goal))
  {
    var path := WayDown(from, start, goal, n);
    WayDownSteps(from, start, goal, n, i - 1);
    WayDownSteps(from, start, goal, n, i);
    assert ComeTo(goal, h, from, visited + {goal}, path[i]);
    if path[i - 1] == goal {
      StepsUnique(from, start, goal, i - 1, n);
    }
  }

  /** Every node of the path but the goal was visited, and every one but the start has a heuristic value in use. */
  ghost predicate Crossed(goal: Location, h: Heuristic, path: seq<Location>, visited: set<Location>) {
    && |path| - 1 <= |visited|
    && (forall k :: 0 <= k < |path| - 1 ==> path[k] in visited)
    && (forall k :: 0 < k < |path| ==> Usable(h(path[k], goal)))
  }

  lemma PathIsCrossed(g: Graph, start: Location, goal: Location, h: Heuristic, from: map<Location, Location>,
                      cost: map<Location, real>, path: seq<Location>, visited: set<Location>)
    requires start in from && from.Keys == cost.Keys && Swept(g, start, goal, h, from, cost, visited)
    requires ReadsOff(from, start, goal, path)
    ensures |path| > 0 && Crossed(goal, h, path, visited)
  {
    var n: nat :| Steps(from, start, goal, n) && path == WayDown(from, start, goal, n);
    forall k | 0 <= k < |path| - 1
      ensures path[k] in visited
    {
      StepIsVisited(g, start, goal, h, from, cost, n, visited, k + 1);
    }
    forall k | 0 < k < |path|
      ensures Usable(h(path[k], goal))
    {
      StepIsVisited(g, start, goal, h, from, cost, n, visited, k);
    }
    WayDownIsSimple(from, start, goal, n);
    SimpleFits(path[..n], visited);
  }

  /** Without the goal among them, all nodes that can be reached have been visited. */
  ghost predicate Covered(g: Graph, start: Location, goal: Location, h: Heuristic, visited: set<Location>) {
    && (forall v :: v in visited <==> Reachable(g, start, v))
    && (forall v :: v in visited && v != start ==> Usable(h(v, goal)))
  }

  lemma AllIsCovered(g: Graph, start: Location, goal: Location, h: Heuristic, from: map<Location, Location>,
                     cost: map<Location, real>, visited: set<Location>)
    requires Visited(g, start, goal, h, visited) && Swept(g, start, goal, h, from, cost, visited) && goal !in cost
    requires forall v :: Reachable(g, start, v) ==> v in visited
    ensures Covered(g, start, goal, h, visited)
  {
    forall v | v in visited && v != start
      ensures Usable(h(v, goal))
    {
      assert ComeTo(goal, h, from, visited + {goal}, v);
    }
  }

  /** The search between two different walkable nodes (hj/algo/astar.hpp:350-423). */
  method Travel(g: Graph, start: Location, goal: Location, options: Options)
    returns (result: SearchResult, path: seq<Location>, ghost visited: set<Location>)
    requires g.Walkable(start) && g.Walkable(goal) && start != goal
    ensures result.Found? || result.NotFound? || result.Cancelled? || result.ResourceLimitExceeded? || result.InvalidCost? || result.InvalidHeuristic? || result.InvalidGraph?
    ensures Correct(g, start, goal, options.heuristic, result, path)
    ensures result != Found && result != InvalidGraph ==> path == []
    ensures Visited(g, start, goal, options.heuristic, visited) && Answered(options, result, |visited|)
    ensures result == Found ==> |path| > 0 && Crossed(goal, options.heuristic, path, visited)
    ensures result == NotFound ==> Covered(g, start, goal, options.heuristic, visited)
  {
    var h := options.heuristic;
    var from, cost;
    path := [];
    result, from, cost, visited := Explore(g, start, goal, options);
    if result == InvalidHeuristic {
      ghost var u, v :| u in visited && v != start && g.Edge(u, v) && !Usable(h(v, goal));
      NextIsReachable(g, start, u, v);
    }
    if result != Found {
      return;
    }
    if goal !in from {
      AllIsCovered(g, start, goal, h, from, cost, visited);
      return NotFound, path, visited;
    }
    result, path := ReconstructPath(g, start, goal, from, cost);
    if result == Found {
      PathIsCorrect(g, start, goal, h, from, cost, path);
      PathIsCrossed(g, start, goal, h, from, cost, path, visited);
    }
  }

  lemma PathInGrid(g: Graph, path: seq<Location>, start: Location, goal: Location)
    requires IsPath(g, path, start, goal)
    ensures forall k :: 0 <= k < |path| ==> path[k] in g.adjacency && path[k] !in g.obstacles
    ensures forall k :: 0 <= k < |path| - 1 ==> path[k + 1] in g.adjacency[path[k]]
  {
    forall k | 0 <= k < |path|
      ensures path[k] in g.adjacency && path[k] !in g.obstacles
    {
      assert k > 0 ==> g.Edge(path[k - 1], path[(k - 1) + 1]);
    }
    forall k | 0 <= k < |path| - 1
      ensures path[k + 1] in g.adjacency[path[k]]
    {
      assert g.Edge(path[k], path[k + 1]);
    }
  }

  method Search(grid: Grid, start: Location, goal: Location, options: Options)
    returns (result: SearchResult, path: seq<Location>, ghost visited: set<Location>)
    ensures result == InvalidStart <==> !grid.View().Walkable(start)
    ensures result == InvalidGoal <==> grid.View().Walkable(start) && !grid.View().Walkable(goal)
    ensures Correct(grid.View(), start, goal, options.heuristic, result, path)
    ensures result != Found && result != InvalidGraph ==> path == []
    ensures start == goal && grid.View().Walkable(start) ==> result == Found && path == [start]
    ensures result == Found ==>
              && |path| > 0 && path[0] == start && path[|path| - 1] == goal
              && (forall k :: 0 <= k < |path| ==> path[k] in grid.adjacency && path[k] !in grid.obstacles)
              && (forall k :: 0 <= k < |path| - 1 ==> path[k + 1] in grid.adjacency[path[k]])
    // each visited node costs one question and one expansion, asked and counted in this order
    ensures start != goal && grid.View().Walkable(start) && grid.View().Walkable(goal) ==>
              && Visited(grid.View(), start, goal, options.heuristic, visited)
              && Answered(options, result, |visited|)
    ensures start != goal && grid.View().Walkable(start) && grid.View().Walkable(goal) && options.cancel(0) ==>
              result == Cancelled
    ensures result == Cancelled ==>
              exists k :: && 0 <= k < |grid.adjacency| && options.cancel(k) && (forall j :: 0 <= j < k ==> !options.cancel(j))
                          && (options.maxExpansions > 0 ==> k <= options.maxExpansions)
    ensures result == ResourceLimitExceeded ==>
              && 0 < options.maxExpansions < |grid.adjacency|
              && forall k :: 0 <= k <= options.maxExpansions ==> !options.cancel(k)
    // no question about a node of the path before the goal was answered yes, and all its heuristic values were accepted
    ensures result == Found && start != goal ==>
              && (forall k :: 0 <= k < |path| - 1 ==> !options.cancel(k) && path[k] in visited)
              && (options.maxExpansions > 0 ==> |path| - 1 <= options.maxExpansions)
              && (forall k :: 0 < k < |path| ==>
                    options.heuristic(path[k], goal).Finite? && options.heuristic(path[k], goal).value >= 0.0)
    // nor one about any node that can be reached, when the goal is not among them
    ensures result == NotFound ==>
              && (forall v :: v in visited <==> Reachable(grid.View(), start, v))
              && (forall v :: v in visited && v != start ==> Usable(options.heuristic(v, goal)))
    // left to run, on weights and a heuristic it accepts, it decides reachability
    ensures && (options.maxExpansions == 0 || options.maxExpansions >= |grid.adjacency|)
            && (forall k :: 0 <= k < |grid.adjacency| ==> !options.cancel(k))
            && grid.View().NonNegative() && grid.View().Walkable(start) && grid.View().Walkable(goal)
            && (forall v :: v != start && Reachable(grid.View(), start, v) ==> Usable(options.heuristic(v, goal)))
            ==> result == if Reachable(grid.View(), start, goal) then Found else NotFound
  {
    var g, h := grid.View(), options.heuristic;
    path, visited := [], {};
    if !g.Walkable(start) {
      return InvalidStart, path, visited;
    }
    if !g.Walkable(goal) {
      return InvalidGoal, path, visited;
    }
    if start == goal {
      StayingIsFree(g, start);
      return Found, [start], visited;
    }
    result, path, visited := Travel(g, start, goal, options);
    if result == Found {
      PathInGrid(g, path, start, goal);
    }
    VisitedIsFewer(g, start, goal, h, visited);
  }
}
