/** `came_from` as a tree: following parents from any node reaches the start, every parent link is
    a real step, and stored costs never fall on the way up. */
module AStarTree {
  import opened AStarGraph

  /** Following parents from v reaches `root` in exactly n steps. */
  ghost predicate Steps(from: map<Location, Location>, root: Location, v: Location, n: nat)
    decreases n
  {
    if n == 0 then v == root else v != root && v in from && Steps(from, root, from[v], n - 1)
  }

  ghost predicate Rooted(from: map<Location, Location>, root: Location, v: Location) {
    exists n: nat :: Steps(from, root, v, n)
  }

  ghost predicate HasParent(g: Graph, from: map<Location, Location>, cost: map<Location, real>, v: Location) {
    v in from && from[v] in cost && g.Edge(from[v], v)
  }

  /** What holds of `came_from` and `cost_so_far` whatever the edge weights are. */
  ghost predicate Known(g: Graph, root: Location, from: map<Location, Location>, cost: map<Location, real>) {
    && from.Keys == cost.Keys && root in from && cost[root] == 0.0
    && (forall v :: v in cost ==> g.Walkable(v) && cost[v] >= 0.0)
    && (forall v {:trigger HasParent(g, from, cost, v)} :: v in cost && v != root ==> HasParent(g, from, cost, v))
  }

  ghost predicate ParentOk(g: Graph, from: map<Location, Location>, cost: map<Location, real>, v: Location)
  {
    HasParent(g, from, cost, v) && v in cost && cost[v] >= cost[from[v]] + g.Weight(from[v], v)
  }

  /** With no negative weight: a tree, on which costs do not fall on the way down. */
  ghost predicate Tree(g: Graph, root: Location, from: map<Location, Location>, cost: map<Location, real>) {
    && Known(g, root, from, cost)
    && (forall v {:trigger Rooted(from, root, v)} :: v in cost ==> Rooted(from, root, v))
    && (forall v {:trigger ParentOk(g, from, cost, v)} :: v in cost && v != root ==> ParentOk(g, from, cost, v))
  }

  lemma {:induction false} StepsUnique(from: map<Location, Location>, root: Location, v: Location, n: nat, m: nat)
    requires Steps(from, root, v, n) && Steps(from, root, v, m)
    ensures n == m
    decreases n
  {
    if n > 0 && m > 0 {
      StepsUnique(from, root, from[v], n - 1, m - 1);
    }
  }

  lemma WeightNonNegative(g: Graph, a: Location, b: Location)
    requires g.NonNegative() && g.Edge(a, b)
    ensures g.Weight(a, b) >= 0.0
  {
  }

  /** A node that costs more than w, or has no cost yet, is not on w's way up: giving it a new
      parent leaves that way as it is. */
  lemma {:induction false} WayUpKept(g: Graph, root: Location, from: map<Location, Location>, cost: map<Location, real>,
                                     w: Location, n: nat, v: Location, u: Location)
    requires g.NonNegative() && Tree(g, root, from, cost) && w in cost && Steps(from, root, w, n)
    requires v !in cost || cost[v] > cost[w]
    ensures Steps(from[v := u], root, w, n)
    decreases n
  {
    if n > 0 {
      assert ParentOk(g, from, cost, w);
      WeightNonNegative(g, from[w], w);
      WayUpKept(g, root, from, cost, from[w], n - 1, v, u);
    }
  }

  /** After v gets the rooted parent u, every way up still ends at the root: it either never meets v
      or goes on from v through u. */
  lemma {:induction false} StillRooted(from: map<Location, Location>, root: Location, w: Location, n: nat,
                                       v: Location, u: Location, k: nat)
    requires Steps(from, root, w, n) && Steps(from[v := u], root, u, k) && v != root
    ensures Rooted(from[v := u], root, w)
    decreases n
  {
    var from' := from[v := u];
    if w == v {
      assert Steps(from', root, v, k + 1);
    } else if n == 0 {
      assert Steps(from', root, w, 0);
    } else {
      StillRooted(from, root, from[w], n - 1, v, u, k);
      var m: nat :| Steps(from', root, from[w], m);
      assert Steps(from', root, w, m + 1);
    }
  }

  lemma RelaxKeepsKnown(g: Graph, root: Location, from: map<Location, Location>, cost: map<Location, real>,
                        u: Location, v: Location, c: real)
    requires Known(g, root, from, cost) && u in cost && g.Edge(u, v) && c >= 0.0
    requires v !in cost || c < cost[v]
    ensures Known(g, root, from[v := u], cost[v := c]) && v != root
  {
    var from', cost' := from[v := u], cost[v := c];
    forall w | w in cost' && w != root
      ensures HasParent(g, from', cost', w)
    {
      assert w == v || HasParent(g, from, cost, w);
    }
  }

  /** A relaxation keeps the tree: hj/algo/astar.hpp:390-393. */
  lemma RelaxKeepsTree(g: Graph, root: Location, from: map<Location, Location>, cost: map<Location, real>,
                       u: Location, v: Location)
    requires g.NonNegative() && Tree(g, root, from, cost) && u in cost && g.Edge(u, v)
    requires v !in cost || cost[u] + g.Weight(u, v) < cost[v]
    ensures Tree(g, root, from[v := u], cost[v := cost[u] + g.Weight(u, v)])
  {
    var c := cost[u] + g.Weight(u, v);
    var from', cost' := from[v := u], cost[v := c];
    WeightNonNegative(g, u, v);
    assert Rooted(from, root, u);
    var k: nat :| Steps(from, root, u, k);
    WayUpKept(g, root, from, cost, u, k, v, u);
    RelaxKeepsKnown(g, root, from, cost, u, v, c);
    assert u != v;
    forall w | w in cost'
      ensures Rooted(from', root, w)
    {
      if w == v {
        assert Steps(from', root, v, k + 1);
      } else {
        assert Rooted(from, root, w);
        var n: nat :| Steps(from, root, w, n);
        StillRooted(from, root, w, n, v, u, k);
      }
    }
    forall w | w in cost' && w != root
      ensures ParentOk(g, from', cost', w)
    {
      if w != v {
        assert ParentOk(g, from, cost, w);
      }
    }
  }

  // ---------------------------------------------------------------- the path read off the tree

  /** The way from the root down to v. */
  ghost function WayDown(from: map<Location, Location>, root: Location, v: Location, n: nat): (p: seq<Location>)
    requires Steps(from, root, v, n)
    ensures |p| == n + 1 && p[n] == v && p[0] == root
    decreases n
  {
    if n == 0 then [v] else WayDown(from, root, from[v], n - 1) + [v]
  }

  lemma OneFurtherDown(g: Graph, root: Location, from: map<Location, Location>, cost: map<Location, real>,
                       v: Location, p: seq<Location>)
    requires v in cost && v != root && HasParent(g, from, cost, v) && IsPath(g, p, root, from[v])
    ensures IsPath(g, p + [v], root, v)
    ensures Tree(g, root, from, cost) && PathCost(g, p) <= cost[from[v]] ==> PathCost(g, p + [v]) <= cost[v]
  {
    ExtendPath(g, p, root, from[v], v);
    assert Tree(g, root, from, cost) ==> ParentOk(g, from, cost, v);
  }

  lemma {:induction false} WayDownIsPath(g: Graph, root: Location, from: map<Location, Location>, cost: map<Location, real>,
                                         v: Location, n: nat)
    requires Known(g, root, from, cost) && v in cost && Steps(from, root, v, n)
    ensures IsPath(g, WayDown(from, root, v, n), root, v)
    ensures Tree(g, root, from, cost) ==> PathCost(g, WayDown(from, root, v, n)) <= cost[v]
    decreases n
  {
    if n > 0 {
      assert HasParent(g, from, cost, v);
      WayDownIsPath(g, root, from, cost, from[v], n - 1);
      OneFurtherDown(g, root, from, cost, v, WayDown(from, root, from[v], n - 1));
    }
  }

  /** The node at index i of the way down is i steps from the root. */
  lemma {:induction false} WayDownSteps(from: map<Location, Location>, root: Location, v: Location, n: nat, i: nat)
    requires Steps(from, root, v, n) && i <= n
    ensures Steps(from, root, WayDown(from, root, v, n)[i], i)
    ensures i > 0 ==> WayDown(from, root, v, n)[i] in from
                      && WayDown(from, root, v, n)[i - 1] == from[WayDown(from, root, v, n)[i]]
    decreases n
  {
    if i < n {
      WayDownSteps(from, root, from[v], n - 1, i);
    }
  }

  ghost predicate Simple(p: seq<Location>) {
    forall i, j :: 0 <= i < j < |p| ==> p[i] != p[j]
  }

  lemma {:induction false} SimpleFits(p: seq<Location>, s: set<Location>)
    requires Simple(p) && forall i :: 0 <= i < |p| ==> p[i] in s
    ensures |p| <= |s|
  {
    if |p| > 0 {
      SimpleFits(p[1..], s - {p[0]});
    }
  }

  /** No node repeats, so the way down is no longer than the tree has nodes. */
  lemma WayDownIsSimple(from: map<Location, Location>, root: Location, v: Location, n: nat)
    requires Steps(from, root, v, n) && root in from
    ensures Simple(WayDown(from, root, v, n)) && n + 1 <= |from|
  {
    var p := WayDown(from, root, v, n);
    forall i, j | 0 <= i < j < |p|
      ensures p[i] != p[j]
    {
      WayDownSteps(from, root, v, n, i);
      WayDownSteps(from, root, v, n, j);
      if p[i] == p[j] {
        StepsUnique(from, root, p[i], i, j);
      }
    }
    forall i | 0 <= i < |p|
      ensures p[i] in from.Keys
    {
      WayDownSteps(from, root, v, n, i);
    }
    SimpleFits(p, from.Keys);
  }
}
