/** Whole histories of a skip list, over the key sequences its methods are proved to leave behind. */
module SkipListRuns {
  import opened SkipListOrder

  datatype Op<T> = InsertOp(key: Key<T>) | DeleteOp(key: Key<T>) | ScoresOp(min: real, max: real) | RanksOp(start: nat, end: nat)

  /** The half-open slice an operation takes out. */
  function Taken<T>(less: (T, T) -> bool, keys: seq<Key<T>>, op: Op<T>): (r: (nat, nat))
    ensures r.0 <= r.1 <= |keys|
  {
    match op
    case InsertOp(_) => (0, 0)
    case DeleteOp(key) => (var r := FirstEqual(less, keys, key); if r < |keys| then (r, r + 1) else (0, 0))
    case ScoresOp(min, max) => (RangeStart(keys, min), RangeEnd(keys, min, max))
    case RanksOp(start, end) =>
      if start > end || start >= |keys| then (0, 0) else (start, if end >= |keys| then |keys| else end + 1)
  }

  /** Insert, or DeleteNode, DeleteRangeByScore, DeleteRangeByRank. */
  function Apply<T>(less: (T, T) -> bool, keys: seq<Key<T>>, op: Op<T>): seq<Key<T>> {
    if op.InsertOp? then Inserted(less, keys, op.key)
    else
      var (lo, hi) := Taken(less, keys, op);
      keys[..lo] + keys[hi..]
  }

  function After<T>(less: (T, T) -> bool, ops: seq<Op<T>>): seq<Key<T>> {
    if ops == [] then [] else Apply(less, After(less, ops[..|ops| - 1]), ops[|ops| - 1])
  }

  ghost function Put<T>(ops: seq<Op<T>>): multiset<Key<T>> {
    if ops == [] then multiset{}
    else
      var op := ops[|ops| - 1];
      Put(ops[..|ops| - 1]) + if op.InsertOp? then multiset{op.key} else multiset{}
  }

  ghost function Gone<T>(less: (T, T) -> bool, ops: seq<Op<T>>): multiset<Key<T>> {
    if ops == [] then multiset{}
    else
      var keys := After(less, ops[..|ops| - 1]);
      var (lo, hi) := Taken(less, keys, ops[|ops| - 1]);
      Gone(less, ops[..|ops| - 1]) + multiset(keys[lo..hi])
  }

  /** The single deletion is the specification of DeleteNode. */
  lemma DeleteIsDeleted<T>(less: (T, T) -> bool, keys: seq<Key<T>>, key: Key<T>)
    ensures Apply(less, keys, DeleteOp(key)) == Deleted(less, keys, key)
  {
    var r := FirstEqual(less, keys, key);
    if r == |keys| {
      assert keys[..0] + keys[0..] == keys;
    }
  }

  /** Over every history the keys stay sorted, and nothing is lost or made up: what was put in is what
      is there and what was taken out. */
  lemma {:induction false} EveryHistory<T(!new)>(less: (T, T) -> bool, ops: seq<Op<T>>)
    requires StrictWeakOrder(less)
    ensures Sorted(less, After(less, ops))
    ensures var keys := After(less, ops);
            forall i, j :: 0 <= i < j < |keys| ==>
              keys[i].score < keys[j].score || (keys[i].score == keys[j].score && !less(keys[j].obj, keys[i].obj))
    ensures Put(ops) == multiset(After(less, ops)) + Gone(less, ops)
    decreases |ops|
  {
    if ops != [] {
      var n := |ops| - 1;
      var keys, op := After(less, ops[..n]), ops[n];
      EveryHistory(less, ops[..n]);
      if op.InsertOp? {
        InsertedIsSorted(less, keys, op.key);
        InsertedKeepsElements(less, keys, op.key);
      } else {
        var (lo, hi) := Taken(less, keys, op);
        RemovedIsSorted(less, keys, lo, hi);
      }
    }
  }

  /** Only equal keys leave with a single deletion, and only keys inside the interval with a range. */
  lemma TakenIsAsked<T(!new)>(less: (T, T) -> bool, keys: seq<Key<T>>, op: Op<T>, i: nat)
    requires StrictWeakOrder(less) && Sorted(less, keys)
    requires Taken(less, keys, op).0 <= i < Taken(less, keys, op).1
    ensures op.DeleteOp? ==> keys[i].score == op.key.score && !less(keys[i].obj, op.key.obj) && !less(op.key.obj, keys[i].obj)
    ensures op.ScoresOp? ==> op.min <= keys[i].score <= op.max
    ensures op.RanksOp? ==> op.start <= i <= op.end
  {
    match op
    case InsertOp(_) =>
    case DeleteOp(key) => FirstEqualIsFirst(less, keys, key);
    case ScoresOp(min, max) => RangeIsInterval(less, keys, min, max);
    case RanksOp(_, _) =>
  }
}
