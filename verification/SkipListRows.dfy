/** One level of the skip list as a pure value.

    `chain` is the header followed by the level-0 nodes.  The row of level i lists, for each
    position p whose node is taller than i, the link (forward, span) stored there.  The lemmas
    say what splicing a node in or out does to every level; the heap does not appear. */
module SkipListRows {
  import opened SkipListOrder

  /** `node_t`: score, object and height never change once the node exists. */
  class Node<T> {
    const obj: T
    const score: real
    const height: nat
    var backward: Node?<T>
    var forward: seq<Node?<T>>  // _level[i].forward
    var span: seq<nat>          // _level[i].span

    constructor (height: nat, score: real, obj: T)
      ensures this.height == height && this.score == score && this.obj == obj
      ensures backward == null
      ensures forward == seq(height, _ => null) && span == seq(height, _ => 0)
    {
      this.height, this.score, this.obj := height, score, obj;
      backward, forward, span := null, seq(height, _ => null), seq(height, _ => 0);
    }

    function Key(): Key<T> {
      SkipListOrder.Key(score, obj)
    }
  }

  datatype Link<T> = Link(forward: Node?<T>, span: int)

  /** No node at positions lo..hi-1 is taller than i. */
  ghost predicate Clear<T>(chain: seq<Node<T>>, i: nat, lo: nat, hi: nat)
    requires hi <= |chain|
  {
    forall q :: lo <= q < hi ==> chain[q].height <= i
  }

  /** A link leads to the next node taller than i and its span is the level-0 distance to it.
      A null link spans the distance to the end of the list. */
  ghost predicate LinkOk<T>(chain: seq<Node<T>>, i: nat, p: nat, l: Link<T>)
    requires p < |chain|
  {
    && 0 <= l.span < |chain| - p
    && if l.forward == null then
         p + l.span == |chain| - 1 && Clear(chain, i, p + 1, |chain|)
       else
         l.span > 0 && chain[p + l.span] == l.forward && l.forward.height > i && Clear(chain, i, p + 1, p + l.span)
  }

  ghost predicate RowOk<T>(chain: seq<Node<T>>, i: nat, row: seq<Link<T>>) {
    |row| == |chain| && forall p {:trigger row[p]} :: 0 <= p < |chain| && chain[p].height > i ==> LinkOk(chain, i, p, row[p])
  }

  /** The node at r is the last one at or before position c that is taller than i. */
  ghost predicate IsPred<T>(chain: seq<Node<T>>, i: nat, r: nat, c: nat) {
    r <= c < |chain| && chain[r].height > i && Clear(chain, i, r + 1, c + 1)
  }

  /** A predecessor's link reaches past c. */
  lemma PredReach<T>(chain: seq<Node<T>>, i: nat, row: seq<Link<T>>, r: nat, c: nat)
    requires RowOk(chain, i, row) && IsPred(chain, i, r, c)
    ensures row[r].forward != null ==> r + row[r].span > c
    ensures row[r].forward == null ==> Clear(chain, i, c + 1, |chain|)
    ensures r + row[r].span >= c
    ensures c + 1 < |chain| && chain[c + 1].height > i ==>
              row[r].forward == chain[c + 1] && r + row[r].span == c + 1
    ensures c + 1 < |chain| && chain[c + 1].height <= i ==> r + row[r].span > c + 1
                                                            || (row[r].forward == null && r + row[r].span > c)
  {
    assert LinkOk(chain, i, r, row[r]);
    var f := row[r].forward;
    if f != null {
      assert chain[r + row[r].span].height > i;
    }
  }

  /** Links in front of a tall node r end at r or earlier. */
  lemma PredBelow<T>(chain: seq<Node<T>>, i: nat, row: seq<Link<T>>, p: nat, r: nat)
    requires RowOk(chain, i, row) && p < r < |chain| && chain[p].height > i && chain[r].height > i
    ensures LinkOk(chain, i, p, row[p])
    ensures row[p].forward != null && p + row[p].span <= r
  {
  }

  /** `t` is `s` with `a` put in at position k, read position by position. */
  ghost predicate Spliced<A>(s: seq<A>, t: seq<A>, k: nat, a: A) {
    && k <= |s| && |t| == |s| + 1
    && (forall q :: 0 <= q < k ==> t[q] == s[q])
    && t[k] == a
    && (forall q :: k < q < |t| ==> t[q] == s[q - 1])
  }

  lemma InsertSplices<A>(s: seq<A>, k: nat, a: A)
    requires k <= |s|
    ensures Spliced(s, InsertAt(s, k, a), k, a)
  {
  }

  lemma RemoveSplices<A>(s: seq<A>, k: nat)
    requires k < |s|
    ensures Spliced(RemoveAt(s, k), s, k, s[k])
  {
  }

  /** A link that ends before the splice point is untouched. */
  lemma LinkBefore<T>(chain: seq<Node<T>>, chain': seq<Node<T>>, i: nat, p: nat, l: Link<T>, k: nat, x: Node<T>)
    requires Spliced(chain, chain', k, x)
    requires p < k && l.forward != null && 0 <= l.span && p + l.span < k
    ensures LinkOk(chain, i, p, l) <==> LinkOk(chain', i, p, l)
  {
    assert Clear(chain, i, p + 1, p + l.span) <==> Clear(chain', i, p + 1, p + l.span) by {
      assert forall q :: 0 <= q < k ==> chain'[q] == chain[q];
    }
  }

  lemma ClearShifted<T>(chain: seq<Node<T>>, chain': seq<Node<T>>, i: nat, lo: nat, hi: nat, k: nat, x: Node<T>)
    requires Spliced(chain, chain', k, x)
    requires k <= lo && hi <= |chain|
    ensures Clear(chain, i, lo, hi) <==> Clear(chain', i, lo + 1, hi + 1)
  {
    if Clear(chain', i, lo + 1, hi + 1) {
      forall q | lo <= q < hi
        ensures chain[q].height <= i
      {
        assert chain'[q + 1] == chain[q];
      }
    }
  }

  /** A link that starts behind the splice point moves along with its node. */
  lemma LinkAfter<T>(chain: seq<Node<T>>, chain': seq<Node<T>>, i: nat, p: nat, l: Link<T>, k: nat, x: Node<T>)
    requires Spliced(chain, chain', k, x)
    requires k <= p < |chain|
    ensures LinkOk(chain, i, p, l) <==> LinkOk(chain', i, p + 1, l)
  {
    ClearShifted(chain, chain', i, p + 1, |chain|, k, x);
    if 0 <= l.span && p + l.span < |chain| {
      assert chain'[p + 1 + l.span] == chain[p + l.span];
      if l.span > 0 {
        ClearShifted(chain, chain', i, p + 1, p + l.span, k, x);
      }
    }
  }

  /** The predecessor's link when a node too short for level i comes or goes behind it: one step longer or shorter. */
  lemma LinkOver<T>(chain: seq<Node<T>>, chain': seq<Node<T>>, i: nat, r: nat, f: Node?<T>, span: int, k: nat, x: Node<T>)
    requires Spliced(chain, chain', k, x) && r < k && x.height <= i
    requires Clear(chain, i, r + 1, k)
    requires f != null ==> f.height > i
    ensures LinkOk(chain, i, r, Link(f, span)) <==> LinkOk(chain', i, r, Link(f, span + 1))
  {
    assert Clear(chain', i, r + 1, k + 1);
    if r + span >= k && r + span < |chain| {
      ClearShifted(chain, chain', i, k, r + span, k, x);
      assert chain'[r + span + 1] == chain[r + span];
    }
    ClearShifted(chain, chain', i, k, |chain|, k, x);
  }

  /** A tall node cuts its predecessor's link in two, and joining the two halves restores it. */
  lemma LinkSplit<T>(chain: seq<Node<T>>, chain': seq<Node<T>>, i: nat, r: nat, f: Node?<T>, span: int, k: nat, x: Node<T>)
    requires Spliced(chain, chain', k, x) && r < k && x.height > i
    requires Clear(chain, i, r + 1, k)
    requires f != null ==> f.height > i
    ensures LinkOk(chain', i, r, Link(x, k - r))
    ensures LinkOk(chain, i, r, Link(f, span)) <==> LinkOk(chain', i, k, Link(f, span - (k - r - 1)))
  {
    assert Clear(chain', i, r + 1, k);
    var s := span - (k - r - 1);
    if k <= r + span < |chain| {
      ClearShifted(chain, chain', i, k, r + span, k, x);
      assert chain'[k + s] == chain[r + span];
    }
    ClearShifted(chain, chain', i, k, |chain|, k, x);
  }

  /** What splicing x in behind position c writes into its predecessor on level i ... */
  ghost function SplitHere<T>(row: seq<Link<T>>, i: nat, r: nat, c: nat, x: Node<T>): Link<T>
    requires r < |row|
  {
    if x.height > i then Link(x, c - r + 1) else Link(row[r].forward, row[r].span + 1)
  }

  /** ... and into x itself (hj/algo/skiplist.hpp:279-289). */
  ghost function SplitThere<T>(row: seq<Link<T>>, i: nat, r: nat, c: nat, x: Node<T>): Link<T>
    requires r < |row|
  {
    if x.height > i then Link(row[r].forward, row[r].span - (c - r)) else Link(null, 0)
  }

  /** The row after x has come in behind position c. */
  ghost predicate RowSpliced<T>(chain: seq<Node<T>>, chain': seq<Node<T>>, i: nat, row: seq<Link<T>>, row': seq<Link<T>>,
                                r: nat, c: nat, x: Node<T>)
  {
    && RowOk(chain, i, row) && IsPred(chain, i, r, c) && Spliced(chain, chain', c + 1, x)
    && Spliced(row[r := SplitHere(row, i, r, c, x)], row', c + 1, SplitThere(row, i, r, c, x))
  }

  lemma SplicedBefore<T>(chain: seq<Node<T>>, chain': seq<Node<T>>, i: nat, row: seq<Link<T>>, row': seq<Link<T>>,
                         r: nat, c: nat, x: Node<T>, p: nat)
    requires RowSpliced(chain, chain', i, row, row', r, c, x) && p < r && chain'[p].height > i
    ensures LinkOk(chain', i, p, row'[p])
  {
    assert row'[p] == row[p];
    PredBelow(chain, i, row, p, r);
    LinkBefore(chain, chain', i, p, row[p], c + 1, x);
  }

  lemma SplicedHere<T>(chain: seq<Node<T>>, chain': seq<Node<T>>, i: nat, row: seq<Link<T>>, row': seq<Link<T>>,
                       r: nat, c: nat, x: Node<T>)
    requires RowSpliced(chain, chain', i, row, row', r, c, x)
    ensures LinkOk(chain', i, r, row'[r])
    ensures x.height > i ==> LinkOk(chain', i, c + 1, row'[c + 1])
  {
    assert row'[r] == SplitHere(row, i, r, c, x);
    assert LinkOk(chain, i, r, row[r]);
    if x.height > i {
      LinkSplit(chain, chain', i, r, row[r].forward, row[r].span, c + 1, x);
    } else {
      LinkOver(chain, chain', i, r, row[r].forward, row[r].span, c + 1, x);
    }
  }

  lemma SplicedAfter<T>(chain: seq<Node<T>>, chain': seq<Node<T>>, i: nat, row: seq<Link<T>>, row': seq<Link<T>>,
                        r: nat, c: nat, x: Node<T>, p: nat)
    requires RowSpliced(chain, chain', i, row, row', r, c, x) && c + 1 < p < |chain'| && chain'[p].height > i
    ensures LinkOk(chain', i, p, row'[p])
  {
    assert chain'[p] == chain[p - 1] && row'[p] == row[p - 1];
    assert LinkOk(chain, i, p - 1, row[p - 1]);
    LinkAfter(chain, chain', i, p - 1, row[p - 1], c + 1, x);
  }

  lemma SplicedRow<T>(chain: seq<Node<T>>, chain': seq<Node<T>>, i: nat, row: seq<Link<T>>, row': seq<Link<T>>,
                      r: nat, c: nat, x: Node<T>)
    requires RowSpliced(chain, chain', i, row, row', r, c, x)
    ensures RowOk(chain', i, row')
  {
    SplicedHere(chain, chain', i, row, row', r, c, x);
    forall p {:trigger row'[p]} | 0 <= p < |chain'| && chain'[p].height > i
      ensures LinkOk(chain', i, p, row'[p])
    {
      if p < r {
        SplicedBefore(chain, chain', i, row, row', r, c, x, p);
      } else if p > c + 1 {
        SplicedAfter(chain, chain', i, row, row', r, c, x, p);
      }
    }
  }

  lemma InsertRow<T>(chain: seq<Node<T>>, i: nat, row: seq<Link<T>>, r: nat, c: nat, x: Node<T>)
    requires RowOk(chain, i, row) && IsPred(chain, i, r, c)
    ensures RowOk(InsertAt(chain, c + 1, x), i,
                  InsertAt(row[r := SplitHere(row, i, r, c, x)], c + 1, SplitThere(row, i, r, c, x)))
  {
    var row1, there := row[r := SplitHere(row, i, r, c, x)], SplitThere(row, i, r, c, x);
    InsertSplices(chain, c + 1, x);
    InsertSplices(row1, c + 1, there);
    SplicedRow(chain, InsertAt(chain, c + 1, x), i, row, InsertAt(row1, c + 1, there), r, c, x);
  }

  /** What removing position c+1 writes into its predecessor on level i (hj/algo/skiplist.hpp:534-544). */
  ghost function Joined<T>(chain: seq<Node<T>>, i: nat, row: seq<Link<T>>, r: nat, c: nat): Link<T>
    requires r <= c && c + 1 < |chain| == |row|
  {
    if chain[c + 1].height > i then Link(row[c + 1].forward, row[r].span + row[c + 1].span - 1)
    else Link(row[r].forward, row[r].span - 1)
  }

  lemma JoinedIsLink<T>(chain: seq<Node<T>>, i: nat, row: seq<Link<T>>, r: nat, c: nat)
    requires c + 1 < |chain| && RowOk(chain, i, row) && IsPred(chain, i, r, c)
    ensures Joined(chain, i, row, r, c).span >= 0
    ensures row[r].forward == chain[c + 1] <==> chain[c + 1].height > i
  {
    PredReach(chain, i, row, r, c);
    assert LinkOk(chain, i, r, row[r]);
    if chain[c + 1].height > i {
      assert LinkOk(chain, i, c + 1, row[c + 1]);
    }
  }

  lemma UnsplicedRow<T>(chain: seq<Node<T>>, chain': seq<Node<T>>, i: nat, row: seq<Link<T>>, row': seq<Link<T>>,
                        r: nat, c: nat, x: Node<T>, here: Link<T>)
    requires RowOk(chain', i, row') && IsPred(chain', i, r, c)
    requires Spliced(chain, chain', c + 1, x) && Spliced(row, row'[r := here], c + 1, row'[c + 1])
    requires if x.height > i then
               row'[r] == Link(x, c - r + 1) && here == Link(row'[c + 1].forward, row'[r].span + row'[c + 1].span - 1)
             else
               here == Link(row'[r].forward, row'[r].span - 1)
    ensures RowOk(chain, i, row)
  {
    assert LinkOk(chain', i, r, row'[r]);
    forall p | 0 <= p < |chain| && chain[p].height > i
      ensures LinkOk(chain, i, p, row[p])
    {
      if p < r {
        PredBelow(chain', i, row', p, r);
        LinkBefore(chain, chain', i, p, row'[p], c + 1, x);
      } else if p == r {
        assert row[r] == here;
        if x.height > i {
          assert LinkOk(chain', i, c + 1, row'[c + 1]);
          LinkSplit(chain, chain', i, r, here.forward, here.span, c + 1, x);
        } else {
          LinkOver(chain, chain', i, r, here.forward, here.span, c + 1, x);
        }
      } else {
        assert p > c;
        assert chain[p] == chain'[p + 1] && row[p] == row'[r := here][p + 1];
        assert LinkOk(chain', i, p + 1, row'[p + 1]);
        LinkAfter(chain, chain', i, p, row'[p + 1], c + 1, x);
      }
    }
  }

  lemma RemoveRow<T>(chain: seq<Node<T>>, i: nat, row: seq<Link<T>>, r: nat, c: nat)
    requires c + 1 < |chain|
    requires RowOk(chain, i, row) && IsPred(chain, i, r, c)
    ensures RowOk(RemoveAt(chain, c + 1), i, RemoveAt(row[r := Joined(chain, i, row, r, c)], c + 1))
  {
    var k, x := c + 1, chain[c + 1];
    var here := Joined(chain, i, row, r, c);
    var row1 := row[r := here];
    assert x.height > i ==> row[r] == Link(x, k - r) by {
      PredReach(chain, i, row, r, c);
    }
    RemoveSplices(chain, k);
    RemoveSplices(row1, k);
    UnsplicedRow(RemoveAt(chain, k), chain, i, RemoveAt(row1, k), row, r, c, x, here);
  }

  // ---------------------------------------------------------------- all levels together

  const MAX_LEVEL: nat := 32

  /** One row per level, one column per position. */
  ghost predicate Matrix<T>(chain: seq<Node<T>>, rows: seq<seq<Link<T>>>) {
    |rows| == MAX_LEVEL && forall i :: 0 <= i < MAX_LEVEL ==> |rows[i]| == |chain|
  }

  /** Every level below `level` is a correct row. */
  ghost predicate Levels<T>(chain: seq<Node<T>>, rows: seq<seq<Link<T>>>, level: nat)
    requires level <= |rows|
  {
    forall i :: 0 <= i < level ==> RowOk(chain, i, rows[i])
  }

  ghost predicate Heights<T>(chain: seq<Node<T>>, level: nat) {
    && 1 <= level <= MAX_LEVEL
    && |chain| > 0 && chain[0].height == MAX_LEVEL
    && forall p :: 1 <= p < |chain| ==> 1 <= chain[p].height <= level
  }

  /** Above `level` the header points nowhere. */
  ghost predicate Unused<T>(rows: seq<seq<Link<T>>>, level: nat) {
    forall i :: level <= i < |rows| ==> |rows[i]| > 0 && rows[i][0].forward == null
  }

  /** `level` is the height of the tallest node. */
  ghost predicate TopUsed<T>(chain: seq<Node<T>>, level: nat) {
    level > 1 ==> exists p :: 1 <= p < |chain| && chain[p].height == level
  }

  lemma TopUsedWith<T>(chain: seq<Node<T>>, level: nat, k: nat, x: Node<T>, level': nat)
    requires TopUsed(chain, level) && 1 <= k <= |chain|
    requires level' == if x.height > level then x.height else level
    ensures TopUsed(InsertAt(chain, k, x), level')
  {
    var chain' := InsertAt(chain, k, x);
    assert chain'[k] == x;
    if level' > 1 && x.height < level' {
      var p :| 1 <= p < |chain| && chain[p].height == level;
      assert chain'[if p < k then p else p + 1] == chain[p];
    }
  }

  ghost predicate Apart<T>(chain: seq<Node<T>>, p: int, q: int) {
    0 <= p < q < |chain| ==> chain[p] != chain[q]
  }

  /** No node occurs twice.  (The pair predicate keeps the quantifier from firing on every pair of nodes.) */
  ghost predicate Injective<T>(chain: seq<Node<T>>) {
    forall p, q :: Apart(chain, p, q)
  }

  /** All that does not depend on the heap: heights, rows, and the place of every node. */
  ghost predicate Leveled<T>(chain: seq<Node<T>>, rows: seq<seq<Link<T>>>, level: nat) {
    Matrix(chain, rows) && Injective(chain) && Heights(chain, level) && Levels(chain, rows, level) && Unused(rows, level)
  }

  lemma TopIsUsed<T>(chain: seq<Node<T>>, rows: seq<seq<Link<T>>>, level: nat)
    requires Leveled(chain, rows, level) && rows[level - 1][0].forward != null
    ensures TopUsed(chain, level)
  {
    assert LinkOk(chain, level - 1, 0, rows[level - 1][0]);
  }

  /** When the header's top link is null no node reaches that level. */
  lemma TopIsEmpty<T>(chain: seq<Node<T>>, rows: seq<seq<Link<T>>>, level: nat)
    requires level > 1 && Leveled(chain, rows, level)
    requires rows[level - 1][0].forward == null
    ensures Leveled(chain, rows, level - 1)
  {
    assert LinkOk(chain, level - 1, 0, rows[level - 1][0]);
  }

  /** On level 0 every link leads to the next position. */
  lemma BottomLink<T>(chain: seq<Node<T>>, row: seq<Link<T>>, p: nat, level: nat)
    requires Heights(chain, level) && RowOk(chain, 0, row) && p < |chain|
    ensures row[p].forward == if p + 1 < |chain| then chain[p + 1] else null
    ensures row[p].span == if p + 1 < |chain| then 1 else 0
  {
    assert LinkOk(chain, 0, p, row[p]);
  }

  /** `update[i]`, standing at position `rank[i]`, precedes position c+1 on every live level. */
  ghost predicate Predecessors<T>(chain: seq<Node<T>>, level: nat, update: seq<Node<T>>, rank: seq<nat>, c: nat) {
    && level <= |update| && level <= |rank|
    && forall i :: 0 <= i < level ==> IsPred(chain, i, rank[i], c) && update[i] == chain[rank[i]]
  }

  /** The link of level j at its predecessor position has been replaced on the levels below i. */
  ghost predicate Rewritten<T>(before: seq<seq<Link<T>>>, now: seq<seq<Link<T>>>, rank: seq<nat>, links: seq<Link<T>>,
                               lo: nat, hi: nat) {
    && |now| == |before| && hi <= |now| && hi <= |rank| && hi <= |links|
    && forall j :: 0 <= j < |now| ==>
         if lo <= j < hi then rank[j] < |before[j]| && now[j] == before[j][rank[j] := links[j]] else now[j] == before[j]
  }

  /** One more level. */
  lemma RewriteNext<T>(before: seq<seq<Link<T>>>, now: seq<seq<Link<T>>>, now': seq<seq<Link<T>>>, rank: seq<nat>,
                       links: seq<Link<T>>, lo: nat, i: nat)
    requires Rewritten(before, now, rank, links, lo, i) && lo <= i < |now| && i < |rank| && i < |links|
    requires rank[i] < |now[i]| && now' == now[i := now[i][rank[i] := links[i]]]
    ensures Rewritten(before, now', rank, links, lo, i + 1)
  {
    assert now[i] == before[i];
  }

  ghost function RemoveColumn<T>(rows: seq<seq<Link<T>>>, k: nat): (rows': seq<seq<Link<T>>>)
    requires forall i :: 0 <= i < |rows| ==> k < |rows[i]|
    ensures |rows'| == |rows| && forall i :: 0 <= i < |rows| ==> rows'[i] == RemoveAt(rows[i], k)
  {
    seq(|rows|, i requires 0 <= i < |rows| => RemoveAt(rows[i], k))
  }

  ghost function InsertColumn<T>(rows: seq<seq<Link<T>>>, k: nat, t: seq<Link<T>>): (rows': seq<seq<Link<T>>>)
    requires |t| == |rows| && forall i :: 0 <= i < |rows| ==> k <= |rows[i]|
    ensures |rows'| == |rows| && forall i :: 0 <= i < |rows| ==> rows'[i] == InsertAt(rows[i], k, t[i])
  {
    seq(|rows|, i requires 0 <= i < |rows| => InsertAt(rows[i], k, t[i]))
  }

  /** The links `_delete_node_internal` writes, level by level. */
  ghost function JoinedLinks<T>(chain: seq<Node<T>>, rows: seq<seq<Link<T>>>, level: nat, rank: seq<nat>, c: nat)
    : (links: seq<Link<T>>)
    requires level <= |rows| && level <= |rank| && c + 1 < |chain|
    requires forall i :: 0 <= i < level ==> rank[i] <= c && |rows[i]| == |chain|
    ensures |links| == level && forall i :: 0 <= i < level ==> links[i] == Joined(chain, i, rows[i], rank[i], c)
  {
    seq(level, i requires 0 <= i < level => Joined(chain, i, rows[i], rank[i], c))
  }

  lemma OnlyAt<T>(chain: seq<Node<T>>, r: nat)
    requires Injective(chain) && r < |chain|
    ensures forall p :: 0 <= p < |chain| && p != r ==> chain[p] != chain[r]
  {
    forall p | 0 <= p < |chain| && p != r
      ensures chain[p] != chain[r]
    {
      assert Apart(chain, p, r) && Apart(chain, r, p);
    }
  }

  lemma RemoveLevels<T>(chain: seq<Node<T>>, before: seq<seq<Link<T>>>, now: seq<seq<Link<T>>>, update: seq<Node<T>>,
                        rank: seq<nat>, c: nat, level: nat)
    requires c + 1 < |chain| && Matrix(chain, now) && Leveled(chain, before, level)
    requires Predecessors(chain, level, update, rank, c)
    requires Rewritten(before, now, rank, JoinedLinks(chain, before, level, rank, c), 0, level)
    ensures Leveled(RemoveAt(chain, c + 1), RemoveColumn(now, c + 1), level)
    ensures Predecessors(RemoveAt(chain, c + 1), level, update, rank, c)
    ensures now[0][c + 1].forward == if c + 2 < |chain| then chain[c + 2] else null
  {
    forall i | 0 <= i < level
      ensures RowOk(RemoveAt(chain, c + 1), i, RemoveColumn(now, c + 1)[i])
      ensures IsPred(RemoveAt(chain, c + 1), i, rank[i], c)
      ensures update[i] == RemoveAt(chain, c + 1)[rank[i]]
    {
      RemoveRow(chain, i, before[i], rank[i], c);
    }
    forall p, q {:trigger Apart(RemoveAt(chain, c + 1), p, q)}
      ensures Apart(RemoveAt(chain, c + 1), p, q)
    {
      assert Apart(chain, if p <= c then p else p + 1, if q <= c then q else q + 1);
    }
    BottomLink(chain, before[0], c + 1, level);
    assert forall i :: level <= i < MAX_LEVEL ==> now[i] == before[i];
  }

  // ---------------------------------------------------------------- insertion

  ghost function SplitLinks<T>(rows: seq<seq<Link<T>>>, level: nat, rank: seq<nat>, c: nat, x: Node<T>): (links: seq<Link<T>>)
    requires level <= |rows| && level <= |rank| && forall i :: 0 <= i < level ==> rank[i] < |rows[i]|
    ensures |links| == level && forall i :: 0 <= i < level ==> links[i] == SplitHere(rows[i], i, rank[i], c, x)
  {
    seq(level, i requires 0 <= i < level => SplitHere(rows[i], i, rank[i], c, x))
  }

  /** The column of x: one link per level, null above its height. */
  ghost function NewColumn<T>(rows: seq<seq<Link<T>>>, level: nat, rank: seq<nat>, c: nat, x: Node<T>): (t: seq<Link<T>>)
    requires level <= |rows| && level <= |rank| && forall i :: 0 <= i < level ==> rank[i] < |rows[i]|
    ensures |t| == |rows|
    ensures forall i :: 0 <= i < |rows| ==>
              t[i] == if i < level then SplitThere(rows[i], i, rank[i], c, x) else Link(null, 0)
  {
    seq(|rows|, i requires 0 <= i < |rows| => if i < level then SplitThere(rows[i], i, rank[i], c, x) else Link(null, 0))
  }

  lemma BottomPred<T>(chain: seq<Node<T>>, level: nat, r: nat, c: nat)
    requires Heights(chain, level) && IsPred(chain, 0, r, c)
    ensures r == c
  {
    assert chain[c].height >= 1;
  }

  /** What one turn of the insertion loop needs to know about its level. */
  lemma SplitIsLink<T>(chain: seq<Node<T>>, rows: seq<seq<Link<T>>>, level: nat, rank: seq<nat>, c: nat, x: Node<T>, i: nat)
    requires Leveled(chain, rows, level) && i < level && i < x.height && level <= |rank|
    requires forall j :: 0 <= j < level ==> rank[j] < |rows[j]| && IsPred(chain, j, rank[j], c)
    ensures rank[0] == c && rank[i] <= c && c - rank[i] <= rows[i][rank[i]].span
    ensures NewColumn(rows, level, rank, c, x)[i] == Link(rows[i][rank[i]].forward, rows[i][rank[i]].span - (c - rank[i]))
    ensures SplitLinks(rows, level, rank, c, x)[i] == Link(x, c - rank[i] + 1)
  {
    BottomPred(chain, level, rank[0], c);
    PredReach(chain, i, rows[i], rank[i], c);
  }

  lemma InjectiveWith<T>(chain: seq<Node<T>>, k: nat, x: Node<T>)
    requires Injective(chain) && x !in chain && k <= |chain|
    ensures Injective(InsertAt(chain, k, x))
  {
    forall p, q {:trigger Apart(InsertAt(chain, k, x), p, q)}
      ensures Apart(InsertAt(chain, k, x), p, q)
    {
      assert Apart(chain, if p < k then p else p - 1, if q < k then q else q - 1);
    }
  }

  lemma InsertLevels<T>(chain: seq<Node<T>>, before: seq<seq<Link<T>>>, now: seq<seq<Link<T>>>, update: seq<Node<T>>,
                        rank: seq<nat>, c: nat, level: nat, x: Node<T>)
    requires c < |chain| && Matrix(chain, now) && Leveled(chain, before, level)
    requires Predecessors(chain, level, update, rank, c)
    requires x !in chain && 1 <= x.height <= level
    requires Rewritten(before, now, rank, SplitLinks(before, level, rank, c, x), 0, level)
    ensures Leveled(InsertAt(chain, c + 1, x), InsertColumn(now, c + 1, NewColumn(before, level, rank, c, x)), level)
    ensures NewColumn(before, level, rank, c, x)[0].forward == if c + 1 < |chain| then chain[c + 1] else null
  {
    var rows' := InsertColumn(now, c + 1, NewColumn(before, level, rank, c, x));
    forall i | 0 <= i < level
      ensures RowOk(InsertAt(chain, c + 1, x), i, rows'[i])
    {
      InsertRow(chain, i, before[i], rank[i], c, x);
    }
    InjectiveWith(chain, c + 1, x);
    BottomPred(chain, level, rank[0], c);
    BottomLink(chain, before[0], c, level);
    assert forall i :: level <= i < MAX_LEVEL ==> now[i] == before[i];
  }

  /** A level above all nodes holds one link: from the header to the end. */
  lemma RaiseRow<T>(chain: seq<Node<T>>, i: nat, row: seq<Link<T>>, level: nat)
    requires Heights(chain, level) && level <= i < MAX_LEVEL && |row| == |chain|
    requires row[0] == Link(null, |chain| - 1)
    ensures RowOk(chain, i, row)
    ensures forall c :: 0 <= c < |chain| ==> IsPred(chain, i, 0, c)
  {
    assert LinkOk(chain, i, 0, row[0]);
  }
}
