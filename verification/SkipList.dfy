/** The indexable skip list of hj/algo/skiplist.hpp as a heap structure. */
module SkipList {
  import opened SkipListOrder
  import opened SkipListRows

  /** The keys of the level-0 chain; position 0 is the header. */
  ghost function ChainKeys<T>(chain: seq<Node<T>>): (keys: seq<Key<T>>)
    requires |chain| > 0
    ensures |keys| == |chain| - 1
    ensures forall p :: 0 <= p < |keys| ==> keys[p] == chain[p + 1].Key()
  {
    seq(|chain| - 1, p requires 0 <= p < |chain| - 1 => chain[p + 1].Key())
  }

  lemma KeysWith<T>(chain: seq<Node<T>>, c: nat, x: Node<T>)
    requires c < |chain|
    ensures ChainKeys(InsertAt(chain, c + 1, x)) == InsertAt(ChainKeys(chain), c, x.Key())
  {
  }

  lemma KeysWithout<T>(chain: seq<Node<T>>, c: nat)
    requires c + 1 < |chain|
    ensures ChainKeys(RemoveAt(chain, c + 1)) == RemoveAt(ChainKeys(chain), c)
  {
  }

  /** The link arrays in the heap hold the given matrix. */
  ghost predicate Stored<T>(repr: set<Node<T>>, chain: seq<Node<T>>, rows: seq<seq<Link<T>>>)
    reads repr
  {
    && Matrix(chain, rows)
    && (forall p :: 0 <= p < |chain| ==>
          chain[p] in repr && |chain[p].forward| == |chain[p].span| == chain[p].height <= MAX_LEVEL)
    && forall i, p {:trigger rows[i][p]} :: 0 <= p < |chain| && 0 <= i < chain[p].height ==>
         chain[p].forward[i] == rows[i][p].forward && chain[p].span[i] == rows[i][p].span
  }

  lemma StoredWithout<T>(repr: set<Node<T>>, chain: seq<Node<T>>, rows: seq<seq<Link<T>>>, k: nat)
    requires Stored(repr, chain, rows) && k < |chain|
    ensures Stored(repr, RemoveAt(chain, k), RemoveColumn(rows, k))
  {
    var chain': seq<Node<T>>, rows': seq<seq<Link<T>>> := RemoveAt(chain, k), RemoveColumn(rows, k);
    forall i, p {:trigger rows'[i][p]} | 0 <= p < |chain'| && 0 <= i < chain'[p].height
      ensures chain'[p].forward[i] == rows'[i][p].forward && chain'[p].span[i] == rows'[i][p].span
    {
      assert rows'[i][p] == rows[i][if p < k then p else p + 1];
    }
  }

  /** Backward pointers mirror level 0; the first node and the header have none. */
  ghost predicate BackwardOk<T>(repr: set<Node<T>>, chain: seq<Node<T>>)
    reads repr
  {
    forall p {:trigger chain[p].backward} :: 0 <= p < |chain| ==>
      chain[p] in repr && chain[p].backward == if p <= 1 then null else chain[p - 1]
  }

  lemma BackwardWithout<T>(repr: set<Node<T>>, chain: seq<Node<T>>, k: nat)
    requires 0 < k < |chain| && forall p :: 0 <= p < |chain| ==> chain[p] in repr
    requires forall p {:trigger chain[p].backward} :: 0 <= p < |chain| && p != k ==>
               chain[p].backward == if p <= 1 || (p == 2 && k == 1) then null
                                    else if p == k + 1 then chain[k - 1] else chain[p - 1]
    ensures BackwardOk(repr, RemoveAt(chain, k))
  {
    var chain' := RemoveAt(chain, k);
    forall p {:trigger chain'[p].backward} | 0 <= p < |chain'|
      ensures chain'[p].backward == if p <= 1 then null else chain'[p - 1]
    {
      assert chain'[p] == chain[if p < k then p else p + 1];
    }
  }

  /** The fresh node x holds the given column. */
  ghost predicate Holds<T>(x: Node<T>, t: seq<Link<T>>, n: nat)
    reads x
  {
    && |x.forward| == |x.span| == x.height <= |t| && n <= x.height
    && forall i :: 0 <= i < n ==> x.forward[i] == t[i].forward && x.span[i] == t[i].span
  }

  lemma StoredWith<T>(repr: set<Node<T>>, chain: seq<Node<T>>, rows: seq<seq<Link<T>>>, k: nat, x: Node<T>, t: seq<Link<T>>)
    requires Stored(repr, chain, rows) && k <= |chain|
    requires |t| == MAX_LEVEL && Holds(x, t, x.height) && x in repr
    ensures Stored(repr, InsertAt(chain, k, x), InsertColumn(rows, k, t))
  {
    var chain': seq<Node<T>>, rows': seq<seq<Link<T>>> := InsertAt(chain, k, x), InsertColumn(rows, k, t);
    forall i, p {:trigger rows'[i][p]} | 0 <= p < |chain'| && 0 <= i < chain'[p].height
      ensures chain'[p].forward[i] == rows'[i][p].forward && chain'[p].span[i] == rows'[i][p].span
    {
      if p != k {
        assert rows'[i][p] == rows[i][if p < k then p else p - 1];
      }
    }
  }

  lemma BackwardWith<T>(repr: set<Node<T>>, chain: seq<Node<T>>, k: nat, x: Node<T>)
    requires 0 < k <= |chain| && x in repr && forall p :: 0 <= p < |chain| ==> chain[p] in repr
    requires x.backward == if k == 1 then null else chain[k - 1]
    requires forall p {:trigger chain[p].backward} :: 0 <= p < |chain| ==>
               chain[p].backward == if p == k then x else if p <= 1 then null else chain[p - 1]
    ensures BackwardOk(repr, InsertAt(chain, k, x))
  {
    var chain' := InsertAt(chain, k, x);
    forall p {:trigger chain'[p].backward} | 0 <= p < |chain'|
      ensures chain'[p].backward == if p <= 1 then null else chain'[p - 1]
    {
      if p != k {
        assert chain'[p] == chain[if p < k then p else p - 1];
      }
    }
  }

  class SkipList<T(0,!new)> {
    const compare: (T, T) -> bool
    const header: Node<T>
    var tail: Node?<T>
    var length: nat
    var level: nat

    ghost var chain: seq<Node<T>>
    ghost var repr: set<Node<T>>  // every node the list may write; a removed node stays in it
    ghost var rows: seq<seq<Link<T>>>

    /** Everything about the pointers; the order of the keys is separate. */
    ghost predicate Linked()
      reads this, repr
    {
      && |chain| == length + 1 && chain[0] == header
      && Leveled(chain, rows, level) && Stored(repr, chain, rows)
      && BackwardOk(repr, chain)
      && tail == if length == 0 then null else chain[length]
    }

    ghost function Keys(): (keys: seq<Key<T>>)
      requires |chain| > 0
      reads this
      ensures |keys| == |chain| - 1
    {
      ChainKeys(chain)
    }

    ghost predicate Valid()
      reads this, repr
    {
      Linked() && TopUsed(chain, level) && StrictWeakOrder(compare) && Sorted(compare, Keys())
    }

    constructor (compare: (T, T) -> bool)
      requires StrictWeakOrder(compare)
      ensures Valid() && Keys() == [] && fresh(repr)
      ensures this.compare == compare
    {
      this.compare := compare;
      var none: T := *;
      var h := new Node<T>(MAX_LEVEL, 0.0, none);
      header := h;
      tail, length, level := null, 0, 1;
      chain := [h];
      repr := {h};
      rows := seq(MAX_LEVEL, _ => [Link(null, 0)]);
    }

    /** What one `x->_level[i].forward` step means: the node it reaches and all it skips. */
    lemma Follow(i: nat, r: nat)
      requires Linked() && i < level && r < |chain| && chain[r].height > i
      ensures |chain[r].forward| > i && |chain[r].span| > i
      ensures LinkOk(chain, i, r, Link(chain[r].forward[i], chain[r].span[i]))
      ensures chain[r].forward[i] != null ==> chain[r].forward[i].Key() == Keys()[r + chain[r].span[i] - 1]
    {
      assert RowOk(chain, i, rows[i]);
      assert LinkOk(chain, i, r, rows[i][r]);
    }

    /** A walk that may stop at x: either the next node is still `below`, or x is the last one that is. */
    lemma Look(below: Key<T> -> bool, i: nat, r: nat, c: nat)
      requires Linked() && Cut(below, Keys(), c) && i < level && r <= c && chain[r].height > i
      ensures |chain[r].forward| > i && |chain[r].span| > i
      ensures var f, t := chain[r].forward[i], r + chain[r].span[i];
              if f != null && below(f.Key()) then r < t <= c && chain[t] == f && f.height > i
              else IsPred(chain, i, r, c)
    {
      Follow(i, r);
      var f, t := chain[r].forward[i], r + chain[r].span[i];
      if f != null {
        assert below(Keys()[t - 1]) <==> t <= c;
      }
    }

    /** One level of a walk: step forward while the next key is `below`. */
    method Advance(below: Key<T> -> bool, i: nat, start: Node<T>, at: nat, ghost c: nat) returns (x: Node<T>, r: nat)
      requires Linked() && Cut(below, Keys(), c) && i < level
      requires at <= c && start == chain[at] && start.height > i
      ensures IsPred(chain, i, r, c) && x == chain[r]
    {
      x, r := start, at;
      Look(below, i, r, c);
      while x.forward[i] != null && below(x.forward[i].Key())
        invariant r <= c && x == chain[r] && x.height > i && |x.forward| > i && |x.span| > i
        invariant if x.forward[i] != null && below(x.forward[i].Key())
                  then r < r + x.span[i] <= c && chain[r + x.span[i]] == x.forward[i] && x.forward[i].height > i
                  else IsPred(chain, i, r, c)
        decreases c - r
      {
        r := r + x.span[i];
        x := x.forward[i];
        Look(below, i, r, c);
      }
    }

    /** The walk from the top level down that insert, delete_node and the score ranges share:
        on each level it stops at the last node whose key is `below`. */
    method Descend(below: Key<T> -> bool, ghost c: nat) returns (update: seq<Node<T>>, rank: seq<nat>)
      requires Linked() && Cut(below, Keys(), c)
      ensures Predecessors(chain, level, update, rank, c) && |update| == |rank| == MAX_LEVEL
    {
      update, rank := seq(MAX_LEVEL, _ => header), seq(MAX_LEVEL, _ => 0);
      var x: Node<T>, r: nat := header, 0;
      var i := level;
      while i > 0
        invariant 0 <= i <= level && |update| == |rank| == MAX_LEVEL
        invariant r <= c && x == chain[r] && x.height >= i
        invariant forall j :: i <= j < level ==> IsPred(chain, j, rank[j], c) && update[j] == chain[rank[j]]
      {
        i := i - 1;
        x, r := Advance(below, i, x, r, c);
        update, rank := update[i := x], rank[i := r];
      }
    }

    /** The new length, with the ghost view brought in line with a heap that already has this shape. */
    method Adopt(n: nat, ghost chain': seq<Node<T>>, ghost rows': seq<seq<Link<T>>>)
      requires Stored(repr, chain', rows') && BackwardOk(repr, chain')
      modifies this`length, this`chain, this`rows
      ensures length == n && chain == chain' && rows == rows'
      ensures Stored(repr, chain, rows) && BackwardOk(repr, chain)
    {
      length, chain, rows := n, chain', rows';
    }

    /** The backward pointers and the tail (hj/algo/skiplist.hpp:546-549). */
    method Bypass(x: Node<T>, ghost c: nat)
      requires Injective(chain) && Stored(repr, chain, rows) && BackwardOk(repr, chain) && c + 1 < |chain|
      requires tail == chain[|chain| - 1] && x == chain[c + 1] && |x.forward| > 0
      requires x.forward[0] == if c + 2 < |chain| then chain[c + 2] else null
      modifies this`tail, repr`backward
      ensures Stored(repr, chain, rows) && BackwardOk(repr, RemoveAt(chain, c + 1))
      ensures tail == if c + 2 < |chain| then chain[|chain| - 1] else if c == 0 then null else chain[c]
    {
      if c + 2 < |chain| {
        OnlyAt(chain, c + 2);
      }
      if x.forward[0] != null {
        x.forward[0].backward := x.backward;
      } else {
        tail := x.backward;
      }
      BackwardWithout(repr, chain, c + 1);
    }

    /** Position c+1 leaves the chain. */
    method Detach(x: Node<T>, ghost c: nat)
      requires Injective(chain) && Stored(repr, chain, rows) && BackwardOk(repr, chain) && c + 1 < |chain| == length + 1
      requires tail == chain[length] && x == chain[c + 1] && |x.forward| > 0
      requires x.forward[0] == if c + 2 < |chain| then chain[c + 2] else null
      modifies this`tail, this`length, this`chain, this`rows, repr`backward
      ensures chain == RemoveAt(old(chain), c + 1) && rows == RemoveColumn(old(rows), c + 1)
      ensures Stored(repr, chain, rows) && BackwardOk(repr, chain)
      ensures length == old(length) - 1 && tail == if length == 0 then null else chain[length]
    {
      Bypass(x, c);
      StoredWithout(repr, chain, rows, c + 1);
      Adopt(length - 1, RemoveAt(chain, c + 1), RemoveColumn(rows, c + 1));
    }

    /** The header gives up the levels no node reaches any more (hj/algo/skiplist.hpp:552-553). */
    method DropLevels()
      requires |chain| > 0 && chain[0] == header && Stored(repr, chain, rows)
      requires Leveled(chain, rows, level)
      modifies this`level
      ensures Leveled(chain, rows, level)
      ensures level <= old(level) && TopUsed(chain, level)
    {
      while level > 1 && header.forward[level - 1] == null
        invariant Leveled(chain, rows, level) && level <= old(level)
      {
        assert rows[level - 1][0].forward == header.forward[level - 1];
        TopIsEmpty(chain, rows, level);
        level := level - 1;
      }
      if level > 1 {
        assert rows[level - 1][0].forward == header.forward[level - 1];
        TopIsUsed(chain, rows, level);
      }
    }

    /** The body of the loop at hj/algo/skiplist.hpp:534-544. */
    method UnlinkLevel(i: nat, x: Node<T>, u: Node<T>, ghost l: Link<T>, ghost r: nat, ghost c: nat)
      requires Stored(repr, chain, rows) && Injective(chain) && r <= c && c + 1 < |chain| && i < u.height
      requires x == chain[c + 1] && u == chain[r]
      requires u.forward[i] == x <==> x.height > i
      requires l.span >= 0 && l == Joined(chain, i, rows[i], r, c)
      modifies this`rows, u`forward, u`span
      ensures Stored(repr, chain, rows) && rows == old(rows)[i := old(rows)[i][r := l]]
    {
      assert Link(u.forward[i], u.span[i]) == rows[i][r];
      assert x.height > i ==> Link(x.forward[i], x.span[i]) == rows[i][c + 1];
      OnlyAt(chain, r);
      rows := rows[i := rows[i][r := l]];
      if u.forward[i] == x {
        u.span := u.span[i := u.span[i] + x.span[i] - 1];
        u.forward := u.forward[i := x.forward[i]];
      } else {
        u.span := u.span[i := u.span[i] - 1];
      }
    }

    /** The loop at hj/algo/skiplist.hpp:534-544. */
    method UnlinkLevels(x: Node<T>, update: seq<Node<T>>, ghost rank: seq<nat>, ghost c: nat)
      requires Stored(repr, chain, rows) && Leveled(chain, rows, level) && c + 1 < |chain| && x == chain[c + 1]
      requires Predecessors(chain, level, update, rank, c)
      modifies this`rows, repr`forward, repr`span
      ensures Stored(repr, chain, rows)
      ensures Leveled(RemoveAt(chain, c + 1), RemoveColumn(rows, c + 1), level)
      ensures Predecessors(RemoveAt(chain, c + 1), level, update, rank, c)
      ensures |x.forward| > 0 && x.forward[0] == if c + 2 < |chain| then chain[c + 2] else null
    {
      ghost var before, links := rows, JoinedLinks(chain, rows, level, rank, c);
      var i := 0;
      while i < level
        invariant 0 <= i <= level
        invariant Stored(repr, chain, rows) && Rewritten(before, rows, rank, links, 0, i)
      {
        assert rows[i] == before[i];
        JoinedIsLink(chain, i, rows[i], rank[i], c);
        assert update[i].forward[i] == rows[i][rank[i]].forward;
        ghost var was := rows;
        UnlinkLevel(i, x, update[i], links[i], rank[i], c);
        RewriteNext(before, was, rows, rank, links, 0, i);
        i := i + 1;
      }
      RemoveLevels(chain, before, rows, update, rank, c, level);
      assert x.forward[0] == rows[0][c + 1].forward;
    }

    /** `_delete_node_internal`: splice out the node behind position c, whose predecessors are given. */
    method DeleteNodeInternal(x: Node<T>, update: seq<Node<T>>, ghost rank: seq<nat>, ghost c: nat)
      requires Linked() && c + 1 < |chain| && x == chain[c + 1]
      requires Predecessors(chain, level, update, rank, c)
      modifies this, repr
      ensures Linked() && TopUsed(chain, level) && level <= old(level) && repr == old(repr)
      ensures chain == RemoveAt(old(chain), c + 1)
      ensures Predecessors(chain, level, update, rank, c)
    {
      UnlinkLevels(x, update, rank, c);
      Detach(x, c);
      DropLevels();
    }

    method RaiseHeader(i: nat)
      requires |chain| == length + 1 && chain[0] == header
      requires Stored(repr, chain, rows) && Leveled(chain, rows, level) && level <= i < MAX_LEVEL && Levels(chain, rows, i)
      modifies this`rows, header`span
      ensures Stored(repr, chain, rows) && Leveled(chain, rows, level) && Levels(chain, rows, i + 1)
      ensures forall c :: 0 <= c < |chain| ==> IsPred(chain, i, 0, c)
    {
      OnlyAt(chain, 0);
      rows := rows[i := rows[i][0 := Link(null, length)]];
      header.span := header.span[i := length];
      RaiseRow(chain, i, rows[i], level);
    }

    /** New levels start with one link from the header to the end (hj/algo/skiplist.hpp:267-276). */
    method RaiseLevel(newLevel: nat, update: seq<Node<T>>, rank: seq<nat>, ghost c: nat)
      returns (update': seq<Node<T>>, rank': seq<nat>)
      requires Linked() && c < |chain| && newLevel <= MAX_LEVEL
      requires Predecessors(chain, level, update, rank, c) && |update| == |rank| == MAX_LEVEL
      modifies this`level, this`rows, header`span
      ensures Linked() && level == if newLevel > old(level) then newLevel else old(level)
      ensures Predecessors(chain, level, update', rank', c) && |update'| == |rank'| == MAX_LEVEL
    {
      update', rank' := update, rank;
      if newLevel > level {
        var i := level;
        while i < newLevel
          invariant level <= i <= newLevel && |update'| == |rank'| == MAX_LEVEL
          invariant Stored(repr, chain, rows) && Leveled(chain, rows, level) && Levels(chain, rows, i)
          invariant Predecessors(chain, i, update', rank', c)
        {
          rank' := rank'[i := 0];
          update' := update'[i := header];
          RaiseHeader(i);
          i := i + 1;
        }
        level := newLevel;
      }
    }

    /** One level of x and of its predecessor u, which stands `gap` positions before the place of x. */
    method LinkLevel(i: nat, x: Node<T>, u: Node<T>, gap: nat, ghost r: nat, ghost column: seq<Link<T>>)
      requires Stored(repr, chain, rows) && Injective(chain) && r < |chain| && u == chain[r] && i < u.height
      requires x in repr && x !in chain && i < x.height && Holds(x, column, i) && gap <= rows[i][r].span
      requires column[i] == Link(rows[i][r].forward, rows[i][r].span - gap)
      modifies this`rows, u`forward, u`span, x`forward, x`span
      ensures Stored(repr, chain, rows) && Holds(x, column, i + 1)
      ensures rows == old(rows)[i := old(rows)[i][r := Link(x, gap + 1)]]
    {
      OnlyAt(chain, r);
      assert Link(u.forward[i], u.span[i]) == rows[i][r];
      rows := rows[i := rows[i][r := Link(x, gap + 1)]];
      x.forward := x.forward[i := u.forward[i]];
      u.forward := u.forward[i := x];
      x.span := x.span[i := u.span[i] - gap];
      u.span := u.span[i := gap + 1];
    }

    method LinkLowerLevels(x: Node<T>, update: seq<Node<T>>, rank: seq<nat>, ghost c: nat, ghost column: seq<Link<T>>,
                           ghost links: seq<Link<T>>)
      requires Stored(repr, chain, rows) && Leveled(chain, rows, level) && x in repr && x !in chain && 1 <= x.height <= level && c < |chain|
      requires |x.forward| == |x.span| == x.height
      requires Predecessors(chain, level, update, rank, c)
      requires column == NewColumn(rows, level, rank, c, x) && links == SplitLinks(rows, level, rank, c, x)
      modifies this`rows, repr`forward, repr`span
      ensures Stored(repr, chain, rows) && Holds(x, column, x.height)
      ensures Rewritten(old(rows), rows, rank, links, 0, x.height)
    {
      ghost var before := rows;
      var i := 0;
      while i < x.height
        invariant 0 <= i <= x.height
        invariant Stored(repr, chain, rows) && Holds(x, column, i) && Rewritten(before, rows, rank, links, 0, i)
      {
        assert rows[i] == before[i];
        SplitIsLink(chain, before, level, rank, c, x, i);
        ghost var was := rows;
        LinkLevel(i, x, update[i], rank[0] - rank[i], rank[i], column);
        RewriteNext(before, was, rows, rank, links, 0, i);
        i := i + 1;
      }
    }

    /** A level above x: the predecessor's link passes over it and grows by one. */
    method StretchLevel(i: nat, u: Node<T>, ghost r: nat)
      requires Stored(repr, chain, rows) && Injective(chain) && r < |chain| && u == chain[r] && i < u.height
      modifies this`rows, u`span
      ensures Stored(repr, chain, rows)
      ensures rows == old(rows)[i := old(rows)[i][r := Link(old(rows)[i][r].forward, old(rows)[i][r].span + 1)]]
    {
      OnlyAt(chain, r);
      rows := rows[i := rows[i][r := Link(rows[i][r].forward, rows[i][r].span + 1)]];
      u.span := u.span[i := u.span[i] + 1];
    }

    method StretchUpperLevels(x: Node<T>, update: seq<Node<T>>, rank: seq<nat>, ghost column: seq<Link<T>>, ghost before: seq<seq<Link<T>>>,
                              ghost links: seq<Link<T>>)
      requires Stored(repr, chain, rows) && Injective(chain) && x.height <= level <= MAX_LEVEL && level <= |update|
      requires x !in chain && Holds(x, column, x.height)
      requires |links| == level && Rewritten(before, rows, rank, links, 0, x.height) && level <= |rank|
      requires forall i :: x.height <= i < level ==>
                 && rank[i] < |chain| && chain[rank[i]] == update[i] && update[i].height > i
                 && links[i] == Link(rows[i][rank[i]].forward, rows[i][rank[i]].span + 1)
      modifies this`rows, repr`span
      ensures Stored(repr, chain, rows) && Rewritten(before, rows, rank, links, 0, level)
      ensures Holds(x, column, x.height)
    {
      var i := x.height;
      while i < level
        invariant x.height <= i <= level
        invariant Stored(repr, chain, rows) && Rewritten(before, rows, rank, links, 0, i)
        invariant Holds(x, column, x.height)
      {
        ghost var was := rows;
        StretchLevel(i, update[i], rank[i]);
        RewriteNext(before, was, rows, rank, links, 0, i);
        i := i + 1;
      }
    }

    /** Both loops at hj/algo/skiplist.hpp:279-289. */
    method LinkLevels(x: Node<T>, update: seq<Node<T>>, rank: seq<nat>, ghost c: nat, ghost column: seq<Link<T>>)
      requires Stored(repr, chain, rows) && Leveled(chain, rows, level) && x in repr && x !in chain && 1 <= x.height <= level && c < |chain|
      requires |x.forward| == |x.span| == x.height
      requires Predecessors(chain, level, update, rank, c)
      requires column == NewColumn(rows, level, rank, c, x)
      modifies this`rows, repr`forward, repr`span
      ensures Stored(repr, chain, rows) && Holds(x, column, x.height)
      ensures Leveled(InsertAt(chain, c + 1, x), InsertColumn(rows, c + 1, column), level)
      ensures x.forward[0] == if c + 1 < |chain| then chain[c + 1] else null
    {
      ghost var before, links := rows, SplitLinks(rows, level, rank, c, x);
      LinkLowerLevels(x, update, rank, c, column, links);
      StretchUpperLevels(x, update, rank, column, before, links);
      InsertLevels(chain, before, rows, update, rank, c, level, x);
    }

    /** The backward pointers and the tail (hj/algo/skiplist.hpp:291-295). */
    method Thread(x: Node<T>, u: Node<T>, ghost c: nat)
      requires Injective(chain) && Stored(repr, chain, rows) && BackwardOk(repr, chain) && c < |chain| && chain[0] == header
      requires x in repr && x !in chain && u == chain[c] && |x.forward| > 0
      requires tail == if |chain| == 1 then null else chain[|chain| - 1]
      requires x.forward[0] == if c + 1 < |chain| then chain[c + 1] else null
      modifies this`tail, repr`backward
      ensures BackwardOk(repr, InsertAt(chain, c + 1, x))
      ensures tail == if c + 1 < |chain| then chain[|chain| - 1] else x
    {
      OnlyAt(chain, 0);
      if c + 1 < |chain| {
        OnlyAt(chain, c + 1);
      }
      x.backward := if u == header then null else u;
      if x.forward[0] != null {
        x.forward[0].backward := x;
      } else {
        tail := x;
      }
      BackwardWith(repr, chain, c + 1, x);
    }

    /** x takes position c+1 of the chain. */
    method Attach(x: Node<T>, u: Node<T>, ghost c: nat, ghost column: seq<Link<T>>)
      requires Injective(chain) && Stored(repr, chain, rows) && BackwardOk(repr, chain) && c < |chain| == length + 1
      requires chain[0] == header && tail == if length == 0 then null else chain[length]
      requires x in repr && x !in chain && u == chain[c] && |column| == MAX_LEVEL && Holds(x, column, x.height) && x.height > 0
      requires x.forward[0] == if c + 1 < |chain| then chain[c + 1] else null
      modifies this`tail, this`length, this`chain, this`rows, repr`backward
      ensures chain == InsertAt(old(chain), c + 1, x) && rows == InsertColumn(old(rows), c + 1, column)
      ensures Stored(repr, chain, rows) && BackwardOk(repr, chain)
      ensures length == old(length) + 1 && tail == chain[length]
    {
      Thread(x, u, c);
      StoredWith(repr, chain, rows, c + 1, x, column);
      Adopt(length + 1, InsertAt(chain, c + 1, x), InsertColumn(rows, c + 1, column));
    }

    /** Links x in behind position c (hj/algo/skiplist.hpp:279-297). */
    method Splice(x: Node<T>, update: seq<Node<T>>, rank: seq<nat>, ghost c: nat)
      requires Linked() && x in repr && x !in chain && 1 <= x.height <= level && c < |chain|
      requires |x.forward| == |x.span| == x.height && x.backward == null
      requires Predecessors(chain, level, update, rank, c)
      modifies this`tail, this`length, this`chain, this`rows, repr
      ensures Linked() && chain == InsertAt(old(chain), c + 1, x)
    {
      ghost var column := NewColumn(rows, level, rank, c, x);
      LinkLevels(x, update, rank, c, column);
      Attach(x, update[0], c, column);
    }

    /** The part of `insert` behind the walk. */
    method InsertAfter(score: real, obj: T, newLevel: nat, update: seq<Node<T>>, rank: seq<nat>, ghost c: nat)
      returns (x: Node<T>)
      requires Linked() && TopUsed(chain, level) && 1 <= newLevel <= MAX_LEVEL && c < |chain|
      requires Predecessors(chain, level, update, rank, c) && |update| == |rank| == MAX_LEVEL
      modifies this, repr
      ensures Linked() && TopUsed(chain, level) && fresh(x) && repr == old(repr) + {x} && x.Key() == Key(score, obj) && x.height == newLevel
      ensures chain == InsertAt(old(chain), c + 1, x) && Keys() == InsertAt(old(Keys()), c, x.Key())
      ensures level == if newLevel > old(level) then newLevel else old(level)
    {
      var update', rank' := RaiseLevel(newLevel, update, rank, c);
      x := new Node<T>(newLevel, score, obj);
      repr := repr + {x};
      TopUsedWith(chain, old(level), c + 1, x, level);
      KeysWith(chain, c, x);
      Splice(x, update', rank', c);
    }

    /** The keys in front of the insertion point, read off the nodes. */
    lemma ChainPoint(score: real, obj: T, c: nat)
      requires Valid() && c == PrefixLen(BeforeKey(compare, Key(score, obj)), Keys())
      ensures forall p :: 1 <= p < |chain| ==>
                (p <= c <==> chain[p].score < score || (chain[p].score == score && compare(chain[p].obj, obj)))
    {
      InsertionPoint(compare, Keys(), Key(score, obj));
      forall p | 1 <= p < |chain|
        ensures p <= c <==> chain[p].score < score || (chain[p].score == score && compare(chain[p].obj, obj))
      {
        assert Keys()[p - 1] == chain[p].Key();
      }
    }

    /** In every reachable state: scores never fall along the chain, and objects of one score never fall. */
    lemma ChainIsOrdered(p: nat, q: nat)
      requires Valid() && 1 <= p < q < |chain|
      ensures chain[p].score < chain[q].score || (chain[p].score == chain[q].score && !compare(chain[q].obj, chain[p].obj))
    {
      assert Keys()[p - 1] == chain[p].Key() && Keys()[q - 1] == chain[q].Key();
    }

    /** `insert`.  The level drawn at random is a parameter. */
    method Insert(score: real, obj: T, newLevel: nat) returns (x: Node<T>)
      requires Valid() && 1 <= newLevel <= MAX_LEVEL
      modifies this, repr
      ensures Valid() && fresh(x) && repr == old(repr) + {x} && x.Key() == Key(score, obj) && x.height == newLevel
      ensures chain == InsertAt(old(chain), PrefixLen(BeforeKey(compare, Key(score, obj)), old(Keys())) + 1, x)
      ensures Keys() == Inserted(compare, old(Keys()), Key(score, obj))
      ensures forall p :: 1 <= p < |old(chain)| ==>
                (p <= PrefixLen(BeforeKey(compare, Key(score, obj)), old(Keys()))
                 <==> old(chain)[p].score < score || (old(chain)[p].score == score && compare(old(chain)[p].obj, obj)))
      ensures level == if newLevel > old(level) then newLevel else old(level)
    {
      ghost var key, was := Key(score, obj), Keys();
      ghost var c := PrefixLen(BeforeKey(compare, key), was);
      KeyCut(compare, was, key);
      InsertedIsSorted(compare, was, key);
      ChainPoint(score, obj, c);
      var update, rank := Descend(BeforeKey(compare, Key(score, obj)), c);
      x := InsertAfter(score, obj, newLevel, update, rank, c);
    }

    // -------------------------------------------------------------- deletion

    /** Where a finished walk stands on level 0, and what comes next. */
    lemma AtBottom(update: seq<Node<T>>, rank: seq<nat>, c: nat)
      requires Linked() && Predecessors(chain, level, update, rank, c) && c < |chain|
      ensures |update| > 0 && update[0] == chain[c] && |chain[c].forward| > 0
      ensures chain[c].forward[0] == if c + 1 < |chain| then chain[c + 1] else null
    {
      BottomPred(chain, level, rank[0], c);
      BottomLink(chain, rows[0], c, level);
      assert rows[0][c].forward == chain[c].forward[0];
    }

    /** A walk and the node behind it: `x = x->_level[0].forward` after the loops. */
    method FindNext(below: Key<T> -> bool, ghost c: nat)
      returns (update: seq<Node<T>>, ghost rank: seq<nat>, x: Node?<T>)
      requires Linked() && Cut(below, Keys(), c)
      ensures Predecessors(chain, level, update, rank, c)
      ensures x == if c + 1 < |chain| then chain[c + 1] else null
    {
      update, rank := Descend(below, c);
      AtBottom(update, rank, c);
      x := update[0].forward[0];
    }

    /** Read the successor, then splice x out. */
    method RemoveNext(x: Node<T>, update: seq<Node<T>>, ghost rank: seq<nat>, ghost c: nat) returns (next: Node?<T>)
      requires Linked() && c + 1 < |chain| && x == chain[c + 1]
      requires Predecessors(chain, level, update, rank, c)
      modifies this, repr
      ensures Linked() && TopUsed(chain, level) && repr == old(repr)
      ensures Keys() == RemoveAt(old(Keys()), c)
      ensures Predecessors(chain, level, update, rank, c)
      ensures next == if c + 1 < |chain| then chain[c + 1] else null
    {
      BottomLink(chain, rows[0], c + 1, level);
      assert rows[0][c + 1].forward == x.forward[0];
      next := x.forward[0];
      KeysWithout(chain, c);
      DeleteNodeInternal(x, update, rank, c);
    }

    /** The node behind the gap, and whether there is one. */
    lemma BehindGap(c: nat, was: seq<Key<T>>, b: nat)
      requires Linked() && c <= b <= |was| && Keys() == Gap(was, c, b)
      ensures c + 1 < |chain| <==> b < |was|
      ensures b < |was| ==> chain[c + 1].score == was[b].score
    {
      if b < |was| {
        WidenGap(was, c, b);
        assert chain[c + 1].Key() == Keys()[c];
      }
    }

    /** One removal among many: the gap that opens behind position c of the keys `was` widens by one. */
    method RemoveAnother(x: Node<T>, update: seq<Node<T>>, ghost rank: seq<nat>, ghost c: nat, ghost was: seq<Key<T>>, ghost b: nat)
      returns (next: Node?<T>)
      requires Linked() && c <= b <= |was| && Keys() == Gap(was, c, b) && c + 1 < |chain| && x == chain[c + 1]
      requires Predecessors(chain, level, update, rank, c)
      modifies this, repr
      ensures Linked() && TopUsed(chain, level) && repr == old(repr)
      ensures b < |was| && x.score == was[b].score && Keys() == Gap(was, c, b + 1)
      ensures Predecessors(chain, level, update, rank, c)
      ensures next == if c + 1 < |chain| then chain[c + 1] else null
    {
      BehindGap(c, was, b);
      WidenGap(was, c, b);
      next := RemoveNext(x, update, rank, c);
    }

    method DeleteNode(score: real, obj: T) returns (found: bool)
      requires Valid()
      modifies this, repr
      ensures Valid() && repr == old(repr)
      ensures found <==> FirstEqual(compare, old(Keys()), Key(score, obj)) < |old(Keys())|
      ensures found <==> exists k :: k in old(Keys()) && k.score == score && !compare(k.obj, obj) && !compare(obj, k.obj)
      ensures Keys() == Deleted(compare, old(Keys()), Key(score, obj))
    {
      ghost var key, was := Key(score, obj), Keys();
      ghost var c := PrefixLen(BeforeKey(compare, key), was);
      KeyCut(compare, was, key);
      FoundIff(compare, was, key);
      var update, rank, x := FindNext(BeforeKey(compare, Key(score, obj)), c);
      found := x != null && Same(compare, x.Key(), Key(score, obj));
      if found {
        RemovedIsSorted(compare, was, c, c + 1);
        var _ := RemoveNext(x, update, rank, c);
      }
    }

    /** The loop at hj/algo/skiplist.hpp:431-437; one `update` array serves every removal. */
    method RemoveWhileAtMost(max: real, first: Node?<T>, update: seq<Node<T>>, ghost rank: seq<nat>, ghost c: nat,
                             ghost hi: nat)
      returns (removed: nat)
      requires Linked() && TopUsed(chain, level) && Predecessors(chain, level, update, rank, c)
      requires c <= hi <= |Keys()| && first == if c + 1 < |chain| then chain[c + 1] else null
      requires forall i :: c <= i < |Keys()| ==> (Keys()[i].score <= max <==> i < hi)
      modifies this, repr
      ensures Linked() && TopUsed(chain, level) && repr == old(repr)
      ensures removed == hi - c && Keys() == Gap(old(Keys()), c, hi)
    {
      ghost var was := Keys();
      NoGap(was, c);
      removed := 0;
      ghost var b := c;
      var x := first;
      while x != null && x.score <= max
        invariant Linked() && TopUsed(chain, level) && repr == old(repr)
        invariant b == c + removed <= |was| && Keys() == Gap(was, c, b)
        invariant forall i :: c <= i < b ==> was[i].score <= max
        invariant Predecessors(chain, level, update, rank, c)
        invariant x == if c + 1 < |chain| then chain[c + 1] else null
        decreases |was| - b
      {
        x := RemoveAnother(x, update, rank, c, was, b);
        removed, b := removed + 1, b + 1;
      }
      BehindGap(c, was, b);
      EndsAtBound(was, c, b, hi, max);
    }

    method DeleteRangeByScore(min: real, max: real) returns (removed: nat)
      requires Valid()
      modifies this, repr
      ensures Valid() && repr == old(repr)
      ensures removed == RangeEnd(old(Keys()), min, max) - RangeStart(old(Keys()), min)
      ensures Keys() == old(Keys())[..RangeStart(old(Keys()), min)] + old(Keys())[RangeEnd(old(Keys()), min, max)..]
    {
      ghost var was, c := Keys(), RangeStart(Keys(), min);
      ScoreCut(compare, was, min);
      ScoreCut(compare, was, max);
      var update, rank, x := FindNext(ScoreBelow(min), c);
      RemovedIsSorted(compare, was, c, RangeEnd(was, min, max));
      removed := RemoveWhileAtMost(max, x, update, rank, c, RangeEnd(was, min, max));
    }

    // -------------------------------------------------------------- ranks

    method AdvanceToRank(i: nat, start: Node<T>, at: nat, rank: nat) returns (x: Node<T>, traversed: nat)
      requires Linked() && i < level && at <= rank < |chain| && start == chain[at] && start.height > i
      ensures IsPred(chain, i, traversed, rank) && x == chain[traversed]
    {
      x, traversed := start, at;
      Follow(i, traversed);
      while x.forward[i] != null && (var reach: nat := traversed + x.span[i] - 1; reach) < rank
        invariant traversed <= rank && x == chain[traversed] && x.height > i
        invariant |x.forward| > i && |x.span| > i
        invariant LinkOk(chain, i, traversed, Link(x.forward[i], x.span[i]))
        decreases rank - traversed
      {
        traversed := traversed + x.span[i];
        x := x.forward[i];
        Follow(i, traversed);
      }
    }

    /** The walk by spans: on each level, stop at the last node not past position `rank`.  The test
        `traversed + span - 1 < rank` cannot wrap, because a non-null link has a positive span. */
    method DescendToRank(rank: nat) returns (update: seq<Node<T>>, ghost ranks: seq<nat>)
      requires Linked() && rank < length
      ensures Predecessors(chain, level, update, ranks, rank) && |update| == |ranks| == MAX_LEVEL
    {
      update, ranks := seq(MAX_LEVEL, _ => header), seq(MAX_LEVEL, _ => 0);
      var x: Node<T>, traversed: nat := header, 0;
      var i := level;
      while i > 0
        invariant 0 <= i <= level && |update| == |ranks| == MAX_LEVEL
        invariant traversed <= rank && x == chain[traversed] && x.height >= i
        invariant forall j :: i <= j < level ==> IsPred(chain, j, ranks[j], rank) && update[j] == chain[ranks[j]]
      {
        i := i - 1;
        x, traversed := AdvanceToRank(i, x, traversed, rank);
        update, ranks := update[i := x], ranks[i := traversed];
      }
    }

    /** The loop at hj/algo/skiplist.hpp:466-474. */
    method RemoveUpToRank(end: nat, first: Node?<T>, update: seq<Node<T>>, ghost rank: seq<nat>, start: nat)
      returns (removed: nat)
      requires Linked() && TopUsed(chain, level) && Predecessors(chain, level, update, rank, start)
      requires start <= end < |Keys()| && first == chain[start + 1]
      modifies this, repr
      ensures Linked() && TopUsed(chain, level) && repr == old(repr)
      ensures removed == end + 1 - start && Keys() == Gap(old(Keys()), start, end + 1)
    {
      ghost var was := Keys();
      NoGap(was, start);
      removed := 0;
      var x: Node?<T>, current := first, start;
      while x != null && current <= end
        invariant Linked() && TopUsed(chain, level) && repr == old(repr)
        invariant current == start + removed <= end + 1 && Keys() == Gap(was, start, current)
        invariant Predecessors(chain, level, update, rank, start)
        invariant x == if start + 1 < |chain| then chain[start + 1] else null
        decreases |was| - removed
      {
        x := RemoveAnother(x, update, rank, start, was, current);
        removed := removed + 1;
        current := current + 1;
      }
    }

    /** The part of `delete_range_by_rank` behind its checks. */
    method RemoveRanks(start: nat, last: nat) returns (removed: nat)
      requires Valid() && start <= last < length
      modifies this, repr
      ensures Valid() && repr == old(repr)
      ensures removed == last + 1 - start && Keys() == Gap(old(Keys()), start, last + 1)
    {
      RemovedIsSorted(compare, Keys(), start, last + 1);
      var update, rank := DescendToRank(start);
      AtBottom(update, rank, start);
      removed := RemoveUpToRank(last, update[0].forward[0], update, rank, start);
    }

    method DeleteRangeByRank(start: nat, end: nat) returns (removed: nat)
      requires Valid()
      modifies this, repr
      ensures Valid() && repr == old(repr)
      ensures var n := |old(Keys())|;
              if start > end || start >= n then removed == 0 && Keys() == old(Keys())
              else var e := if end >= n then n - 1 else end;
                removed == e + 1 - start && Keys() == old(Keys())[..start] + old(Keys())[e + 1..]
    {
      if start > end || start >= length {
        return 0;
      }
      removed := RemoveRanks(start, if end >= length then length - 1 else end);
    }

    method GetElementByRank(rank: nat) returns (x: Node?<T>)
      requires Valid()
      ensures x == if rank < |Keys()| then chain[rank + 1] else null
    {
      if rank >= length {
        return null;
      }
      var update, ranks := DescendToRank(rank);
      AtBottom(update, ranks, rank);
      x := update[0].forward[0];
    }

    /** One level of get_rank's walk, and the look at the node behind it. */
    method LookForEqual(key: Key<T>, i: nat, start: Node<T>, at: nat, ghost c: nat)
      returns (x: Node<T>, rank: nat, found: bool, r: nat)
      requires Linked() && Cut(BeforeKey(compare, key), Keys(), c) && i < level
      requires at <= c && start == chain[at] && start.height > i
      ensures IsPred(chain, i, rank, c) && x == chain[rank]
      ensures found ==> r < |Keys()| && Same(compare, Keys()[r], key)
      ensures !found && i == 0 ==> rank == c && (c < |Keys()| ==> !Same(compare, Keys()[c], key))
    {
      x, rank := Advance(BeforeKey(compare, key), i, start, at, c);
      Follow(i, rank);
      found := x.forward[i] != null && Same(compare, x.forward[i].Key(), key);
      r := if found then rank + x.span[i] - 1 else 0;
      if i == 0 {
        BottomPred(chain, level, rank, c);
        BottomLink(chain, rows[0], c, level);
      }
    }

    /** An equal key may be met on a high level first, so with duplicates the result is the rank of
        some equal key; FirstEqual is the answer when the keys are pairwise different. */
    method GetRank(score: real, obj: T) returns (r: nat)
      requires Valid()
      ensures r <= |Keys()|
      ensures r < |Keys()| ==> Keys()[r].score == score && !compare(Keys()[r].obj, obj) && !compare(obj, Keys()[r].obj)
      ensures r < |Keys()| <==> exists k :: k in Keys() && k.score == score && !compare(k.obj, obj) && !compare(obj, k.obj)
      ensures r == |Keys()| <==> FirstEqual(compare, Keys(), Key(score, obj)) == |Keys()|
    {
      ghost var c := PrefixLen(BeforeKey(compare, Key(score, obj)), Keys());
      KeyCut(compare, Keys(), Key(score, obj));
      FoundIff(compare, Keys(), Key(score, obj));
      var x: Node<T>, rank: nat := header, 0;
      var i := level;
      while i > 0
        invariant 0 <= i <= level && rank <= c && x == chain[rank] && x.height >= i
        invariant i == 0 ==> c < |Keys()| ==> !Same(compare, Keys()[c], Key(score, obj))
      {
        i := i - 1;
        var found;
        x, rank, found, r := LookForEqual(Key(score, obj), i, x, rank, c);
        if found {
          EqualIsFound(compare, Keys(), Key(score, obj), r);
          return;
        }
      }
      return length;
    }

    // -------------------------------------------------------------- ranges and the self-check

    /** Necessary for a non-empty interval, but not sufficient: the interval may fall in a gap. */
    method IsInRange(min: real, max: real) returns (b: bool)
      requires Valid()
      ensures b <==> min <= max && |Keys()| > 0 && Keys()[|Keys()| - 1].score >= min && Keys()[0].score <= max
    {
      if min > max {
        return false;
      }
      if tail == null || tail.score < min {
        return false;
      }
      BottomLink(chain, rows[0], 0, level);
      assert rows[0][0].forward == header.forward[0];
      return !(header.forward[0] == null || header.forward[0].score > max);
    }

    /** The node at the first score not below `min`, unless its score is above `max`. */
    method FirstFrom(min: real, max: real, ghost lo: nat) returns (x: Node?<T>)
      requires Linked() && Cut(ScoreBelow<T>(min), Keys(), lo)
      ensures x == if lo < |Keys()| && Keys()[lo].score <= max then chain[lo + 1] else null
    {
      var _, _, y := FindNext(ScoreBelow(min), lo);
      assert y != null ==> y.Key() == Keys()[lo];
      x := if y == null || y.score > max then null else y;
    }

    method FirstInRange(min: real, max: real) returns (x: Node?<T>)
      requires Valid()
      ensures x == if RangeStart(Keys(), min) < RangeEnd(Keys(), min, max) then chain[RangeStart(Keys(), min) + 1] else null
    {
      var possible := IsInRange(min, max);
      RangeEnds(compare, Keys(), min, max);
      if !possible {
        return null;
      }
      ScoreCut(compare, Keys(), min);
      x := FirstFrom(min, max, RangeStart(Keys(), min));
    }

    /** The node at the last score not above `max`, unless its score is below `min`. */
    method LastUpTo(min: real, max: real, ghost hi: nat) returns (x: Node?<T>)
      requires Linked() && Cut(ScoreAtMost<T>(max), Keys(), hi) && hi > 0
      ensures x == if Keys()[hi - 1].score >= min then chain[hi] else null
    {
      var update, rank := Descend(ScoreAtMost(max), hi);
      AtBottom(update, rank, hi);
      assert update[0].Key() == Keys()[hi - 1];
      x := if update[0].score < min then null else update[0];
    }

    method LastInRange(min: real, max: real) returns (x: Node?<T>)
      requires Valid()
      ensures x == if RangeStart(Keys(), min) < RangeEnd(Keys(), min, max) then chain[RangeEnd(Keys(), min, max)] else null
    {
      var possible := IsInRange(min, max);
      RangeEnds(compare, Keys(), min, max);
      if !possible {
        return null;
      }
      ScoreCut(compare, Keys(), max);
      x := LastUpTo(min, max, PrefixLen(ScoreAtMost(max), Keys()));
    }

    /** Level 0 is the chain itself. */
    lemma AtNext(p: nat)
      requires Linked() && p < |chain|
      ensures |chain[p].forward| > 0
      ensures chain[p].forward[0] == if p + 1 < |chain| then chain[p + 1] else null
    {
      BottomLink(chain, rows[0], p, level);
      assert rows[0][p].forward == chain[p].forward[0];
    }

    /** `validate`, run on any well-linked list: true exactly when the scores never go down. */
    method Validate() returns (ok: bool)
      requires Linked()
      ensures ok <==> forall p :: 1 <= p < |chain| - 1 ==> chain[p].score <= chain[p + 1].score
      ensures Valid() ==> ok
    {
      AtNext(0);
      var x, count: nat := header.forward[0], 0;
      while x != null
        invariant count <= length && x == if count + 1 < |chain| then chain[count + 1] else null
        invariant forall p :: 1 <= p <= count && p + 1 < |chain| ==> chain[p].score <= chain[p + 1].score
        decreases length - count
      {
        count := count + 1;
        AtNext(count);
        if x.forward[0] != null && x.score > x.forward[0].score {
          assert Before(compare, Keys()[count], Keys()[count - 1]);
          return false;
        }
        x := x.forward[0];
      }
      return count == length;
    }
  }
}
