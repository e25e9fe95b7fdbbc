/** The abstract view of the skip list: a sequence of keys sorted by (score, object).

    Everything here is about sequences only.  The class in SkipList.dfy ties its pointers
    to these functions; the lemmas below say what the functions mean. */
module SkipListOrder {

  datatype Key<T> = Key(score: real, obj: T)

  /** What `std::function<bool(const T&, const T&)>` has to be for an ordered container. */
  ghost predicate StrictWeakOrder<T(!new)>(less: (T, T) -> bool) {
    && (forall a :: !less(a, a))
    && (forall a, b, c :: less(a, b) && less(b, c) ==> less(a, c))
    && (forall a, b, c :: !less(a, b) && !less(b, a) && !less(b, c) && !less(c, b)
                          ==> !less(a, c) && !less(c, a))
  }

  /** The comparison written out in every walk of the source: score first, then object. */
  predicate Before<T>(less: (T, T) -> bool, a: Key<T>, b: Key<T>) {
    a.score < b.score || (a.score == b.score && less(a.obj, b.obj))
  }

  /** The equality test of delete_node and get_rank. */
  predicate Same<T>(less: (T, T) -> bool, a: Key<T>, b: Key<T>) {
    a.score == b.score && !less(a.obj, b.obj) && !less(b.obj, a.obj)
  }

  function BeforeKey<T>(less: (T, T) -> bool, key: Key<T>): Key<T> -> bool {
    k => Before(less, k, key)
  }

  function ScoreBelow<T>(min: real): Key<T> -> bool {
    (k: Key<T>) => k.score < min
  }

  function ScoreAtMost<T>(max: real): Key<T> -> bool {
    (k: Key<T>) => k.score <= max
  }

  ghost predicate Sorted<T>(less: (T, T) -> bool, keys: seq<Key<T>>) {
    forall i, j :: 0 <= i < j < |keys| ==> !Before(less, keys[j], keys[i])
  }

  lemma BeforeIsWeakOrder<T(!new)>(less: (T, T) -> bool, a: Key<T>, b: Key<T>, c: Key<T>)
    requires StrictWeakOrder(less)
    ensures Before(less, a, b) ==> !Before(less, b, a)
    ensures Before(less, a, c) ==> Before(less, a, b) || Before(less, b, c)
  {
  }

  /** Length of the longest prefix whose keys all satisfy `below`. */
  function PrefixLen<T>(below: Key<T> -> bool, keys: seq<Key<T>>): (n: nat)
    ensures n <= |keys|
    ensures forall i :: 0 <= i < n ==> below(keys[i])
    ensures n < |keys| ==> !below(keys[n])
  {
    if keys == [] || !below(keys[0]) then 0 else 1 + PrefixLen(below, keys[1..])
  }

  /** `below` holds of exactly the first c keys. */
  ghost predicate Cut<T>(below: Key<T> -> bool, keys: seq<Key<T>>, c: nat) {
    c <= |keys| && forall i {:trigger keys[i]} :: 0 <= i < |keys| ==> (below(keys[i]) <==> i < c)
  }

  lemma KeyCut<T(!new)>(less: (T, T) -> bool, keys: seq<Key<T>>, key: Key<T>)
    requires StrictWeakOrder(less) && Sorted(less, keys)
    ensures Cut(BeforeKey(less, key), keys, PrefixLen(BeforeKey(less, key), keys))
  {
    var c := PrefixLen(BeforeKey(less, key), keys);
    forall i | c < i < |keys|
      ensures !Before(less, keys[i], key)
    {
      BeforeIsWeakOrder(less, keys[i], keys[c], key);
    }
  }

  lemma ScoreCut<T(!new)>(less: (T, T) -> bool, keys: seq<Key<T>>, bound: real)
    requires Sorted(less, keys)
    ensures Cut(ScoreBelow(bound), keys, PrefixLen(ScoreBelow(bound), keys))
    ensures Cut(ScoreAtMost(bound), keys, PrefixLen(ScoreAtMost(bound), keys))
  {
    forall i, j | 0 <= i < j < |keys|
      ensures keys[i].score <= keys[j].score
    {
      assert !Before(less, keys[j], keys[i]);
    }
  }

  // ---------------------------------------------------------------- the operations

  function InsertAt<A>(s: seq<A>, k: nat, a: A): seq<A>
    requires k <= |s|
  {
    s[..k] + [a] + s[k..]
  }

  function RemoveAt<A>(s: seq<A>, k: nat): seq<A>
    requires k < |s|
  {
    s[..k] + s[k + 1..]
  }

  /** A new key goes in front of its equals. */
  function Inserted<T>(less: (T, T) -> bool, keys: seq<Key<T>>, key: Key<T>): seq<Key<T>> {
    InsertAt(keys, PrefixLen(BeforeKey(less, key), keys), key)
  }

  /** Index of the first key equal to `key`, or |keys| when there is none. */
  function FirstEqual<T>(less: (T, T) -> bool, keys: seq<Key<T>>, key: Key<T>): (r: nat)
    ensures r <= |keys|
  {
    var c := PrefixLen(BeforeKey(less, key), keys);
    if c < |keys| && Same(less, keys[c], key) then c else |keys|
  }

  function Deleted<T>(less: (T, T) -> bool, keys: seq<Key<T>>, key: Key<T>): seq<Key<T>> {
    var r := FirstEqual(less, keys, key);
    if r < |keys| then RemoveAt(keys, r) else keys
  }

  function RangeStart<T>(keys: seq<Key<T>>, min: real): (n: nat)
    ensures n <= |keys|
  {
    PrefixLen(ScoreBelow(min), keys)
  }

  /** One past the last key of the score interval; never before its start. */
  function RangeEnd<T>(keys: seq<Key<T>>, min: real, max: real): (n: nat)
    ensures RangeStart(keys, min) <= n <= |keys|
  {
    var lo, hi := RangeStart(keys, min), PrefixLen(ScoreAtMost(max), keys);
    if lo <= hi then hi else lo
  }

  // ---------------------------------------------------------------- what they mean

  /** The insertion point: in front of it exactly the keys of smaller score, and those of the same score
      whose object is smaller. */
  lemma InsertionPoint<T(!new)>(less: (T, T) -> bool, keys: seq<Key<T>>, key: Key<T>)
    requires StrictWeakOrder(less) && Sorted(less, keys)
    ensures var c := PrefixLen(BeforeKey(less, key), keys);
            && Inserted(less, keys, key) == keys[..c] + [key] + keys[c..]
            && forall i :: 0 <= i < |keys| ==>
                 (i < c <==> keys[i].score < key.score || (keys[i].score == key.score && less(keys[i].obj, key.obj)))
  {
    KeyCut(less, keys, key);
    var c := PrefixLen(BeforeKey(less, key), keys);
    forall i | 0 <= i < |keys|
      ensures i < c <==> Before(less, keys[i], key)
    {
      assert BeforeKey(less, key)(keys[i]) <==> Before(less, keys[i], key);
    }
  }

  lemma InsertedIsSorted<T(!new)>(less: (T, T) -> bool, keys: seq<Key<T>>, key: Key<T>)
    requires StrictWeakOrder(less) && Sorted(less, keys)
    ensures Sorted(less, Inserted(less, keys, key))
  {
    var c, after := PrefixLen(BeforeKey(less, key), keys), Inserted(less, keys, key);
    InsertionPoint(less, keys, key);
    forall i, j | 0 <= i < j < |after|
      ensures after[i].score < after[j].score || (after[i].score == after[j].score && !less(after[j].obj, after[i].obj))
    {
      assert after[i] == (if i < c then keys[i] else if i == c then key else keys[i - 1]);
      assert after[j] == (if j < c then keys[j] else if j == c then key else keys[j - 1]);
    }
  }

  lemma InsertedKeepsElements<T>(less: (T, T) -> bool, keys: seq<Key<T>>, key: Key<T>)
    ensures multiset(Inserted(less, keys, key)) == multiset(keys) + multiset{key}
  {
    var c := PrefixLen(BeforeKey(less, key), keys);
    assert keys == keys[..c] + keys[c..];
  }

  lemma RemovedIsSorted<T(!new)>(less: (T, T) -> bool, keys: seq<Key<T>>, lo: nat, hi: nat)
    requires Sorted(less, keys) && lo <= hi <= |keys|
    ensures Sorted(less, keys[..lo] + keys[hi..])
    ensures multiset(keys) == multiset(keys[..lo] + keys[hi..]) + multiset(keys[lo..hi])
  {
    var rest := keys[..lo] + keys[hi..];
    forall i, j | 0 <= i < j < |rest|
      ensures !Before(less, rest[j], rest[i])
    {
      var i', j' := if i < lo then i else i + hi - lo, if j < lo then j else j + hi - lo;
      assert rest[i] == keys[i'] && rest[j] == keys[j'];
    }
    assert keys == keys[..lo] + keys[lo..hi] + keys[hi..];
  }

  /** FirstEqual really is the first equal key, and |keys| exactly when none is equal. */
  lemma FirstEqualIsFirst<T(!new)>(less: (T, T) -> bool, keys: seq<Key<T>>, key: Key<T>)
    requires StrictWeakOrder(less) && Sorted(less, keys)
    ensures var r := FirstEqual(less, keys, key);
            && (r < |keys| ==> keys[r].score == key.score && !less(keys[r].obj, key.obj) && !less(key.obj, keys[r].obj))
            && (forall i :: 0 <= i < r ==>
                  keys[i].score != key.score || less(keys[i].obj, key.obj) || less(key.obj, keys[i].obj))
  {
    var c := PrefixLen(BeforeKey(less, key), keys);
    KeyCut(less, keys, key);
    forall i | 0 <= i < |keys| && Same(less, keys[i], key)
      ensures c <= i && Same(less, keys[c], key)
    {
      assert !BeforeKey(less, key)(keys[i]);
      BeforeIsWeakOrder(less, key, keys[i], keys[c]);
      assert !BeforeKey(less, key)(keys[c]);
    }
  }

  /** There is a first equal key exactly when there is an equal key. */
  lemma FoundIff<T(!new)>(less: (T, T) -> bool, keys: seq<Key<T>>, key: Key<T>)
    requires StrictWeakOrder(less) && Sorted(less, keys)
    ensures FirstEqual(less, keys, key) < |keys|
       <==> exists k :: k in keys && k.score == key.score && !less(k.obj, key.obj) && !less(key.obj, k.obj)
  {
    FirstEqualIsFirst(less, keys, key);
    if FirstEqual(less, keys, key) < |keys| {
      assert keys[FirstEqual(less, keys, key)] in keys;
    }
  }

  lemma EqualIsFound<T(!new)>(less: (T, T) -> bool, keys: seq<Key<T>>, key: Key<T>, r: nat)
    requires StrictWeakOrder(less) && Sorted(less, keys) && r < |keys| && Same(less, keys[r], key)
    ensures FirstEqual(less, keys, key) < |keys|
  {
    FirstEqualIsFirst(less, keys, key);
  }

  lemma RemoveInserted<A>(s: seq<A>, k: nat, a: A)
    requires k <= |s|
    ensures RemoveAt(InsertAt(s, k, a), k) == s
  {
  }

  /** The prefix length is determined by its two defining properties. */
  lemma PrefixLenIs<T(!new)>(below: Key<T> -> bool, keys: seq<Key<T>>, n: nat)
    requires n <= |keys|
    requires forall i :: 0 <= i < n ==> below(keys[i])
    requires n < |keys| ==> !below(keys[n])
    ensures PrefixLen(below, keys) == n
  {
  }

  /** Deleting a key just inserted gives back the sequence: the newest equal key goes first. */
  lemma DeleteUndoesInsert<T(!new)>(less: (T, T) -> bool, keys: seq<Key<T>>, key: Key<T>)
    requires StrictWeakOrder(less) && Sorted(less, keys)
    ensures FirstEqual(less, Inserted(less, keys, key), key) == PrefixLen(BeforeKey(less, key), keys)
    ensures Deleted(less, Inserted(less, keys, key), key) == keys
  {
    var c := PrefixLen(BeforeKey(less, key), keys);
    var after := Inserted(less, keys, key);
    var below := BeforeKey(less, key);
    BeforeIsWeakOrder(less, key, key, key);
    assert !below(key);
    assert forall i :: 0 <= i < c ==> after[i] == keys[i];
    PrefixLenIs(below, after, c);
    RemoveInserted(keys, c, key);
  }

  /** s without its slice [a, b). */
  ghost function Gap<A>(s: seq<A>, a: nat, b: nat): (r: seq<A>)
    requires a <= b <= |s|
    ensures |r| == |s| - (b - a)
  {
    s[..a] + s[b..]
  }

  lemma NoGap<A>(s: seq<A>, a: nat)
    requires a <= |s|
    ensures Gap(s, a, a) == s
  {
  }

  lemma WidenGap<A>(s: seq<A>, a: nat, b: nat)
    requires a <= b < |s|
    ensures RemoveAt(Gap(s, a, b), a) == Gap(s, a, b + 1)
    ensures Gap(s, a, b)[a] == s[b]
  {
  }

  /** A run of scores up to `max` that cannot go on ends where such scores end. */
  lemma EndsAtBound<T>(keys: seq<Key<T>>, c: nat, b: nat, hi: nat, max: real)
    requires c <= b <= |keys| && c <= hi <= |keys|
    requires forall i :: c <= i < |keys| ==> (keys[i].score <= max <==> i < hi)
    requires forall i :: c <= i < b ==> keys[i].score <= max
    requires b < |keys| ==> keys[b].score > max
    ensures b == hi
  {
    assert hi < |keys| ==> keys[hi].score > max;
  }

  /** With pairwise different keys, rank and position are inverse to each other. */
  lemma RankOfPosition<T(!new)>(less: (T, T) -> bool, keys: seq<Key<T>>, r: nat)
    requires StrictWeakOrder(less) && Sorted(less, keys) && r < |keys|
    requires forall i, j :: 0 <= i < j < |keys| ==> !Same(less, keys[i], keys[j])
    ensures FirstEqual(less, keys, keys[r]) == r
    ensures forall i :: 0 <= i < |keys| ==> (Same(less, keys[i], keys[r]) <==> i == r)
  {
    BeforeIsWeakOrder(less, keys[r], keys[r], keys[r]);
    FirstEqualIsFirst(less, keys, keys[r]);
    forall i | 0 <= i < |keys| && i != r
      ensures !Same(less, keys[i], keys[r])
    {
      if i < r {
        assert !Same(less, keys[i], keys[r]);
      } else {
        assert !Same(less, keys[r], keys[i]);
      }
    }
  }

  /** The slice [RangeStart, RangeEnd) is exactly the set of positions inside the interval. */
  lemma RangeIsInterval<T(!new)>(less: (T, T) -> bool, keys: seq<Key<T>>, min: real, max: real)
    requires Sorted(less, keys)
    ensures forall i :: 0 <= i < |keys| ==>
              (RangeStart(keys, min) <= i < RangeEnd(keys, min, max) <==> min <= keys[i].score <= max)
  {
    ScoreCut(less, keys, min);
    ScoreCut(less, keys, max);
    forall i | 0 <= i < |keys|
      ensures i < RangeStart(keys, min) <==> keys[i].score < min
      ensures i < PrefixLen(ScoreAtMost(max), keys) <==> keys[i].score <= max
    {
      assert ScoreBelow<T>(min)(keys[i]) <==> keys[i].score < min;
      assert ScoreAtMost<T>(max)(keys[i]) <==> keys[i].score <= max;
    }
  }

  /** When the interval holds a key, and which ones are the first and the last. */
  lemma RangeEnds<T(!new)>(less: (T, T) -> bool, keys: seq<Key<T>>, min: real, max: real)
    requires Sorted(less, keys)
    ensures var lo, hi := RangeStart(keys, min), PrefixLen(ScoreAtMost(max), keys);
            var some := lo < RangeEnd(keys, min, max);
            && (some ==> RangeEnd(keys, min, max) == hi && min <= max
                         && min <= keys[|keys| - 1].score && keys[0].score <= max)
            && (lo < |keys| ==> (some <==> keys[lo].score <= max))
            && (hi > 0 ==> (some <==> min <= keys[hi - 1].score))
            && (|keys| > 0 && keys[0].score <= max ==> hi > 0)
  {
    ScoreCut(less, keys, min);
    ScoreCut(less, keys, max);
    var lo, hi := RangeStart(keys, min), PrefixLen(ScoreAtMost(max), keys);
    forall i | 0 <= i < |keys|
      ensures i < lo <==> keys[i].score < min
      ensures i < hi <==> keys[i].score <= max
    {
      assert ScoreBelow<T>(min)(keys[i]) <==> keys[i].score < min;
      assert ScoreAtMost<T>(max)(keys[i]) <==> keys[i].score <= max;
    }
  }
}
