/** detail::priority_queue: a min-heap of (priority, location) pairs. */
module AStarQueue {
  import opened AStarGraph

  type Entry = (real, Location)

  /** std::greater on pairs, turned around: priority first, then location. */
  predicate Precedes(a: Entry, b: Entry) {
    a.0 < b.0 || (a.0 == b.0 && Less(a.1, b.1))
  }

  ghost predicate Least(e: Entry, s: multiset<Entry>) {
    e in s && forall f :: f in s ==> !Precedes(f, e)
  }

  lemma {:induction false} LeastExists(s: multiset<Entry>)
    requires s != multiset{}
    ensures exists e :: Least(e, s)
    decreases |s|
  {
    var a :| a in s;
    var rest := s - multiset{a};
    if rest == multiset{} {
      assert forall f :: f in s ==> f == a || f in rest;
      assert Least(a, s);
    } else {
      LeastExists(rest);
      var e :| Least(e, rest);
      assert forall f :: f in s ==> f == a || f in rest;
      if Precedes(a, e) {
        assert Least(a, s);
      } else {
        assert Least(e, s);
      }
    }
  }

  class PriorityQueue {
    var elements: multiset<Entry>

    constructor ()
      ensures elements == multiset{}
    {
      elements := multiset{};
    }

    method Put(item: Location, priority: real)
      modifies this
      ensures elements == old(elements) + multiset{(priority, item)}
    {
      elements := elements + multiset{(priority, item)};
    }

    /** Removes the least entry; `top` is that entry. */
    method Get() returns (item: Location, ghost top: Entry)
      requires elements != multiset{}
      modifies this
      ensures Least(top, old(elements)) && item == top.1
      ensures top in old(elements)
      ensures forall f :: f in old(elements) ==>
                || top.0 < f.0
                || (top.0 == f.0 && (top.1.x < f.1.x || (top.1.x == f.1.x && top.1.y <= f.1.y)))
      ensures elements == old(elements) - multiset{top}
    {
      LeastExists(elements);
      var e :| e in elements && forall f :: f in elements ==> !Precedes(f, e);
      elements := elements - multiset{e};
      return e.1, e;
    }
  }
}
