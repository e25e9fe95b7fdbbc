/** The free functions range_by_score and range_by_rank, and the unsigned arithmetic of the spans. */
module SkipListQueries {
  import opened SkipListOrder
  import opened SkipListRows
  import opened SkipList

  /** `limit` is a signed long: -1 means no limit, any other negative value admits nothing. */
  function Window(n: nat, offset: nat, limit: int): (w: (nat, nat))
    ensures w.0 <= w.1 <= n
  {
    var from := if offset < n then offset else n;
    (from, if limit == -1 || from + limit > n then n else if limit < 0 then from else from + limit)
  }

  /** Of n positions the window takes those behind the offset, as many as the limit admits. */
  lemma WindowIs(n: nat, offset: nat, limit: int, j: nat)
    ensures Window(n, offset, limit).0 <= j < Window(n, offset, limit).1
       <==> offset <= j < n && (limit == -1 || j - offset < limit)
  {
  }

  /** The window's nodes, behind the header and the keys below the interval [lo, hi). */
  ghost function Windowed<A>(chain: seq<A>, lo: nat, hi: nat, offset: nat, limit: int): seq<A>
    requires lo <= hi < |chain|
  {
    var w := Window(hi - lo, offset, limit);
    chain[lo + 1 + w.0..lo + 1 + w.1]
  }

  lemma CollectedIsWindow<A>(chain: seq<A>, lo: nat, hi: nat, offset: nat, limit: int, skipped: nat, collected: nat)
    requires lo <= hi < |chain|
    requires skipped == if offset < hi - lo then offset else hi - lo
    requires collected == if limit == -1 || limit > hi - lo - skipped then hi - lo - skipped else if limit < 0 then 0 else limit
    ensures chain[lo + skipped + 1..lo + skipped + 1 + collected] == Windowed(chain, lo, hi, offset, limit)
  {
  }

  /** x is the node of the key with index r, or null behind the last one; the keys from r on are at
      most `max` up to index hi and not beyond. */
  ghost predicate At<T>(chain: seq<Node<T>>, r: nat, x: Node?<T>, max: real, hi: nat) {
    && r <= hi < |chain| && (x == if r + 1 < |chain| then chain[r + 1] else null)
    && forall p {:trigger chain[p]} :: r < p < |chain| ==> (chain[p].score <= max <==> p <= hi)
  }

  method SkipOffset<T(0,!new)>(sl: SkipList<T>, first: Node?<T>, max: real, offset: nat, ghost lo: nat, ghost hi: nat)
    returns (x: Node?<T>, skipped: nat)
    requires sl.Linked() && At(sl.chain, lo, first, max, hi)
    ensures At(sl.chain, lo + skipped, x, max, hi) && skipped == if offset < hi - lo then offset else hi - lo
  {
    x, skipped := first, 0;
    while skipped < offset && x != null && x.score <= max
      invariant skipped <= offset && At(sl.chain, lo + skipped, x, max, hi)
    {
      sl.AtNext(lo + skipped + 1);
      x := x.forward[0];
      skipped := skipped + 1;
    }
  }

  method Collect<T(0,!new)>(sl: SkipList<T>, first: Node?<T>, max: real, limit: int, ghost r: nat, ghost hi: nat)
    returns (x: Node?<T>, nodes: seq<Node<T>>, collected: nat)
    requires sl.Linked() && At(sl.chain, r, first, max, hi)
    ensures At(sl.chain, r + collected, x, max, hi) && nodes == sl.chain[r + 1..r + 1 + collected]
    ensures collected == if limit == -1 || limit > hi - r then hi - r else if limit < 0 then 0 else limit
  {
    x, nodes, collected := first, [], 0;
    while x != null && x.score <= max && (limit == -1 || collected < limit)
      invariant At(sl.chain, r + collected, x, max, hi) && nodes == sl.chain[r + 1..r + 1 + collected]
      invariant limit == -1 || collected <= limit || collected == 0
      decreases hi - r - collected
    {
      sl.AtNext(r + collected + 1);
      nodes := nodes + [x];
      collected := collected + 1;
      x := x.forward[0];
    }
  }

  method CountRest<T(0,!new)>(sl: SkipList<T>, first: Node?<T>, max: real, ghost r: nat, ghost hi: nat) returns (counted: nat)
    requires sl.Linked() && At(sl.chain, r, first, max, hi)
    ensures counted == hi - r
  {
    var x := first;
    counted := 0;
    while x != null && x.score <= max
      invariant At(sl.chain, r + counted, x, max, hi)
      decreases hi - r - counted
    {
      sl.AtNext(r + counted + 1);
      counted := counted + 1;
      x := x.forward[0];
    }
  }

  method ScanRange<T(0,!new)>(sl: SkipList<T>, first: Node<T>, max: real, offset: nat, limit: int, ghost lo: nat, ghost hi: nat)
    returns (nodes: seq<Node<T>>, total: nat)
    requires sl.Linked() && At(sl.chain, lo, first, max, hi)
    ensures total == hi - lo
    ensures nodes == Windowed(sl.chain, lo, hi, offset, limit)
  {
    var x, skipped := SkipOffset(sl, first, max, offset, lo, hi);
    var collected, counted;
    x, nodes, collected := Collect(sl, x, max, limit, lo + skipped, hi);
    counted := CountRest(sl, x, max, lo + skipped + collected, hi);
    total := skipped + collected + counted;
    CollectedIsWindow(sl.chain, lo, hi, offset, limit, skipped, collected);
  }

  lemma EndsAt<T(0,!new)>(sl: SkipList<T>, min: real, max: real)
    requires sl.Valid() && RangeStart(sl.Keys(), min) < |sl.Keys()|
    ensures var lo, hi := RangeStart(sl.Keys(), min), RangeEnd(sl.Keys(), min, max);
            At(sl.chain, lo, sl.chain[lo + 1], max, hi)
  {
    var keys, lo := sl.Keys(), RangeStart(sl.Keys(), min);
    RangeIsInterval(sl.compare, keys, min, max);
    ScoreCut(sl.compare, keys, min);
    forall p {:trigger sl.chain[p]} | lo < p < |sl.chain|
      ensures sl.chain[p].score <= max <==> p <= RangeEnd(keys, min, max)
    {
      assert keys[p - 1] == sl.chain[p].Key();
      assert ScoreBelow<T>(min)(keys[p - 1]) <==> keys[p - 1].score < min;
    }
  }

  /** The slice [offset, offset+limit) of the score interval, and the size of the whole interval. */
  method RangeByScore<T(0,!new)>(sl: SkipList<T>, min: real, max: real, offset: nat, limit: int)
    returns (nodes: seq<Node<T>>, total: nat)
    requires sl.Valid()
    ensures var lo, hi := RangeStart(sl.Keys(), min), RangeEnd(sl.Keys(), min, max);
            && total == hi - lo
            && nodes == Windowed(sl.chain, lo, hi, offset, limit)
  {
    ghost var lo, hi := RangeStart(sl.Keys(), min), RangeEnd(sl.Keys(), min, max);
    var x := sl.FirstInRange(min, max);
    if x == null {
      return [], 0;
    }
    EndsAt(sl, min, max);
    nodes, total := ScanRange(sl, x, max, offset, limit, lo, hi);
  }

  method RangeByRank<T(0,!new)>(sl: SkipList<T>, start: nat, endParam: nat, reverse: bool)
    returns (nodes: seq<Node<T>>, total: nat)
    requires sl.Valid()
    ensures total == |nodes|
    ensures var n := |sl.Keys()|;
            if start > endParam || start >= n then nodes == []
            else var end := if endParam >= n then n - 1 else endParam;
              && |nodes| == end + 1 - start
              && forall i :: 0 <= i < |nodes| ==> nodes[i] == sl.chain[1 + if reverse then end - i else start + i]
  {
    nodes, total := [], 0;
    if start > endParam || start >= sl.length {
      return;
    }
    var end := if endParam >= sl.length then sl.length - 1 else endParam;
    if !reverse {
      var i := start;
      while i <= end
        invariant start <= i <= end + 1 && total == |nodes| == i - start
        invariant forall j :: 0 <= j < |nodes| ==> nodes[j] == sl.chain[1 + start + j]
      {
        var node := sl.GetElementByRank(i);
        if node != null {
          nodes := nodes + [node];
          total := total + 1;
        }
        i := i + 1;
      }
    } else {
      var i := end + 1;
      while i > start
        invariant start <= i <= end + 1 && total == |nodes| == end + 1 - i
        invariant forall j :: 0 <= j < |nodes| ==> nodes[j] == sl.chain[1 + end - j]
      {
        var node := sl.GetElementByRank(i - 1);
        if node != null {
          nodes := nodes + [node];
          total := total + 1;
        }
        i := i - 1;
      }
    }
  }

  const ULONG: nat := 0x1_0000_0000_0000_0000

  /** `span += x->span - 1` on unsigned long: when x is last on its level x->span is 0 and the
      difference wraps, but the sum wraps back, so the class may compute it without wrapping. */
  lemma SpanSumWrapsBack(span: nat, xspan: nat)
    requires 1 <= span + xspan <= ULONG && span < ULONG && xspan < ULONG
    ensures (span + (xspan - 1) % ULONG) % ULONG == span + xspan - 1
  {
    if xspan == 0 {
      assert (xspan - 1) % ULONG == ULONG - 1;
    }
  }
}
