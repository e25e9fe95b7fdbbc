/** dynamic_bitset and bloom_filter of hj/algo/bloom_filter.hpp. */
module BloomFilter {
  import opened BloomWords

  function AllFalse(n: nat): (bits: seq<bool>)
    ensures |bits| == n && forall p :: 0 <= p < n ==> !bits[p]
  {
    seq(n, _ => false)
  }

  class DynamicBitset {
    var numBits: nat
    var numWords: nat
    var data: array<bv64>

    ghost predicate Valid()
      reads this, data
    {
      numWords == (numBits + 63) / 64 && data.Length == numWords && TailClear(data[..], numBits)
    }

    /** What the words stand for. */
    ghost function Bits(): (bits: seq<bool>)
      reads this, data
      requires Valid()
      ensures |bits| == numBits
    {
      Unpacked(data[..], numBits)
    }

    /** memset over every word. */
    method Reset()
      requires numWords == (numBits + 63) / 64 && data.Length == numWords
      modifies data
      ensures Valid() && Bits() == AllFalse(numBits)
    {
      var i := 0;
      while i < numWords
        invariant i <= numWords && forall k :: 0 <= k < i ==> data[k] == 0
      {
        data[i] := 0;
        i := i + 1;
      }
      ghost var words := data[..];
      forall p | 0 <= p < 64 * |words|
        ensures !BitOf(words, p)
      {
        ClearWords(words, p);
      }
    }

    constructor (n: nat)
      ensures Valid() && fresh(data) && numBits == n && Bits() == AllFalse(n)
    {
      numBits, numWords := n, (n + 63) / 64;
      data := new bv64[(n + 63) / 64];
      new;
      Reset();
    }

    /** operator=: a deep copy into new words. */
    method Assign(other: DynamicBitset)
      requires Valid() && other.Valid()
      modifies this
      ensures Valid() && numBits == other.numBits && Bits() == old(other.Bits())
      ensures this != other ==> fresh(data)
      ensures this == other ==> data == old(data)
    {
      if this != other {
        numBits, numWords := other.numBits, other.numWords;
        var source := other.data;
        data := new bv64[numWords](i requires 0 <= i < source.Length reads source => source[i]);
        assert data[..] == source[..];
      }
    }

    method Set(pos: nat, value: bool)
      requires Valid()
      modifies data
      ensures Valid() && Bits() == if pos < numBits then old(Bits())[pos := value] else old(Bits())
    {
      if pos >= numBits {
        return;
      }
      var word, bit := pos / 64, pos % 64;
      ghost var words := data[..];
      StoreRefines(words, numBits, pos, value);
      if value {
        data[word] := WithBit(data[word], bit);
      } else {
        data[word] := WithoutBit(data[word], bit);
      }
      assert data[..] == Stored(words, pos, value);
    }

    method Test(pos: nat) returns (b: bool)
      requires Valid()
      ensures b <==> pos < numBits && Bits()[pos]
    {
      if pos >= numBits {
        return false;
      }
      b := Bit(data[pos / 64], pos % 64);
    }
  }

  // ---------------------------------------------------------------- positions

  const MIN_BITS: nat := 64
  const MAX_BITS: nat := 65536
  const MIN_HASHES: nat := 1
  const MAX_HASHES: nat := 16
  const WORD: int := 0x1_0000_0000_0000_0000

  function Clamp(x: nat, low: nat, high: nat): (r: nat)
    requires low <= high
    ensures low <= r <= high && (low <= x <= high ==> r == x)
  {
    var y := if x < low then low else x;
    if y > high then high else y
  }

  /** The i-th hash of a value. */
  type Hash<!T> = (T, nat) -> nat

  /** _hash_i: unsigned arithmetic on two standard hashes, then the top bit is masked off. */
  function HashI<T>(h1: T -> nat, h2: nat -> nat, v: T, i: nat): nat {
    var hval := h1(v) % WORD;
    (hval + i * (h2(hval) % WORD)) % WORD % 0x8000_0000_0000_0000
  }

  function DoubleHash<T>(h1: T -> nat, h2: nat -> nat): Hash<T> {
    (v, i) => HashI(h1, h2, v, i)
  }

  /** Index 0 is the first hash without its top bit. */
  lemma FirstHash<T>(h1: T -> nat, h2: nat -> nat, v: T)
    ensures HashI(h1, h2, v, 0) == h1(v) % 0x8000_0000_0000_0000
  {
  }

  const HALF: int := 0x8000_0000_0000_0000

  lemma WordMod(x: nat)
    ensures x % WORD % HALF == x % HALF
  {
  }

  lemma DifferenceMod(x: nat, y: nat)
    ensures ((x + y) % HALF - x % HALF) % HALF == y % HALF
  {
  }

  lemma HashIs<T>(h1: T -> nat, h2: nat -> nat, v: T, i: nat, a: nat, b: nat)
    requires a == h1(v) % WORD && b == h2(a) % WORD
    ensures a + i * b >= 0 && HashI(h1, h2, v, i) == (a + i * b) % HALF
  {
    assert i * b >= 0;
    WordMod(a + i * b);
  }

  /** Each index adds the second hash, which is taken of the first, modulo 2^63. */
  lemma NextHash<T>(h1: T -> nat, h2: nat -> nat, v: T, i: nat)
    ensures (HashI(h1, h2, v, i + 1) - HashI(h1, h2, v, i)) % 0x8000_0000_0000_0000
         == h2(h1(v) % 0x1_0000_0000_0000_0000) % 0x8000_0000_0000_0000
  {
    var a := h1(v) % WORD;
    var b := h2(a) % WORD;
    HashIs(h1, h2, v, i, a, b);
    HashIs(h1, h2, v, i + 1, a, b);
    assert a + (i + 1) * b == a + i * b + b;
    DifferenceMod(a + i * b, b);
    WordMod(h2(a));
  }

  function Position<T>(h: Hash<T>, v: T, i: nat, n: nat): (p: nat)
    requires n > 0
    ensures p < n
  {
    h(v, i) % n
  }

  /** Two hashes of 5 and 7 set the bits 5 and 12 of 64. */
  lemma TwoPositions<T>(h1: T -> nat, h2: nat -> nat, v: T)
    requires h1(v) == 5 && h2(5) == 7
    ensures Position(DoubleHash(h1, h2), v, 0, 64) == 5 && Position(DoubleHash(h1, h2), v, 1, 64) == 12
  {
  }

  /** The bits with the first k positions of v set. */
  function Marked<T>(h: Hash<T>, bits: seq<bool>, v: T, k: nat): (r: seq<bool>)
    requires |bits| > 0
    ensures |r| == |bits|
    decreases k
  {
    if k == 0 then bits else Marked(h, bits, v, k - 1)[Position(h, v, k - 1, |bits|) := true]
  }

  /** The first k positions of v are all set. */
  predicate Holds<T>(h: Hash<T>, bits: seq<bool>, v: T, k: nat)
    requires |bits| > 0
  {
    forall i :: 0 <= i < k ==> bits[Position(h, v, i, |bits|)]
  }

  function Text(bits: seq<bool>): (s: string)
    ensures |s| == |bits|
  {
    seq(|bits|, i requires 0 <= i < |bits| => if bits[i] then '1' else '0')
  }

  /** Every character but '1' reads as zero. */
  function Parsed(s: string): (bits: seq<bool>)
    ensures |bits| == |s|
  {
    seq(|s|, i requires 0 <= i < |s| => s[i] == '1')
  }

  /** The first i characters stored. */
  ghost function Overwritten(before: seq<bool>, s: string, i: nat): (r: seq<bool>)
    requires i <= |s| == |before|
    ensures |r| == |s|
    decreases i
  {
    if i == 0 then before else Overwritten(before, s, i - 1)[i - 1 := s[i - 1] == '1']
  }

  lemma {:induction false} OverwrittenBits(before: seq<bool>, s: string, i: nat)
    requires i <= |s| == |before|
    ensures Overwritten(before, s, i) == Parsed(s)[..i] + before[i..]
    decreases i
  {
    if i > 0 {
      OverwrittenBits(before, s, i - 1);
    }
  }

  lemma {:induction false} OverwrittenAll(before: seq<bool>, s: string)
    requires |s| == |before|
    ensures Overwritten(before, s, |s|) == Parsed(s)
  {
    OverwrittenBits(before, s, |s|);
  }

  ghost predicate Hit<T(!new)>(h: Hash<T>, k: nat, n: nat, v: T, p: nat)
    requires n > 0
  {
    exists i :: 0 <= i < k && Position(h, v, i, n) == p
  }

  lemma {:induction false} MarkedBits<T(!new)>(h: Hash<T>, bits: seq<bool>, v: T, k: nat, p: nat)
    requires p < |bits|
    ensures Marked(h, bits, v, k)[p] <==> bits[p] || Hit(h, k, |bits|, v, p)
    decreases k
  {
    if k > 0 {
      MarkedBits(h, bits, v, k - 1, p);
      if Hit(h, k, |bits|, v, p) && !Hit(h, k - 1, |bits|, v, p) {
        assert Position(h, v, k - 1, |bits|) == p;
      }
    }
  }

  /** What marking does, position by position. */
  lemma MarkedIs<T(!new)>(h: Hash<T>, bits: seq<bool>, v: T, k: nat)
    requires |bits| > 0
    ensures forall p :: 0 <= p < |bits| ==>
              (Marked(h, bits, v, k)[p] <==> bits[p] || exists i :: 0 <= i < k && p == h(v, i) % |bits|)
  {
    forall p | 0 <= p < |bits|
      ensures Marked(h, bits, v, k)[p] <==> bits[p] || exists i :: 0 <= i < k && p == h(v, i) % |bits|
    {
      MarkedBits(h, bits, v, k, p);
      if i :| 0 <= i < k && p == h(v, i) % |bits| {
        assert Position(h, v, i, |bits|) == p;
      }
    }
  }

  lemma HoldsIs<T>(h: Hash<T>, bits: seq<bool>, v: T, k: nat)
    requires |bits| > 0
    ensures Holds(h, bits, v, k) <==> forall i :: 0 <= i < k ==> bits[h(v, i) % |bits|]
  {
    forall i | 0 <= i < k
      ensures Position(h, v, i, |bits|) == h(v, i) % |bits|
    {
    }
    if forall i :: 0 <= i < k ==> bits[h(v, i) % |bits|] {
      forall i | 0 <= i < k
        ensures bits[Position(h, v, i, |bits|)]
      {
        assert bits[h(v, i) % |bits|];
      }
    }
  }

  class Filter<T(!new)> {
    const hash: Hash<T>
    var numBits: nat
    var numHashes: nat
    var bits: DynamicBitset

    ghost predicate Valid()
      reads this, bits, bits.data
    {
      && bits.Valid() && bits.numBits == numBits
      && MIN_BITS <= numBits <= MAX_BITS && MIN_HASHES <= numHashes <= MAX_HASHES
    }

    ghost function Bits(): (b: seq<bool>)
      reads this, bits, bits.data
      requires Valid()
      ensures |b| == numBits
    {
      bits.Bits()
    }

    /** `optimalBits` and `optimalHashes` are what the two sizing formulas yield. */
    constructor (h1: T -> nat, h2: nat -> nat, optimalBits: nat, optimalHashes: nat)
      ensures Valid() && fresh(bits) && fresh(bits.data) && hash == DoubleHash(h1, h2) && Bits() == AllFalse(numBits)
      ensures numBits == if optimalBits < 64 then 64 else if optimalBits > 65536 then 65536 else optimalBits
      ensures numHashes == if optimalHashes < 1 then 1 else if optimalHashes > 16 then 16 else optimalHashes
    {
      hash := DoubleHash(h1, h2);
      numBits := Clamp(optimalBits, MIN_BITS, MAX_BITS);
      numHashes := Clamp(optimalHashes, MIN_HASHES, MAX_HASHES);
      bits := new DynamicBitset(1);
      new;
      var sized := new DynamicBitset(numBits);
      bits.Assign(sized);
    }

    method Clear()
      requires Valid()
      modifies bits.data
      ensures Valid() && Bits() == AllFalse(numBits)
    {
      bits.Reset();
    }

    method Mark(pos: nat)
      requires Valid() && pos < numBits
      modifies bits.data
      ensures Valid() && Bits() == old(Bits())[pos := true]
    {
      bits.Set(pos, true);
    }

    method Add(v: T)
      requires Valid()
      modifies bits.data
      ensures Valid() && Bits() == Marked(hash, old(Bits()), v, numHashes)
      ensures forall p :: 0 <= p < numBits ==>
                (Bits()[p] <==> old(Bits())[p] || exists i :: 0 <= i < numHashes && p == hash(v, i) % numBits)
    {
      var i := 0;
      while i < numHashes
        invariant i <= numHashes && Valid() && Bits() == Marked(hash, old(Bits()), v, i)
      {
        Mark(Position(hash, v, i, numBits));
        i := i + 1;
      }
      MarkedIs(hash, old(Bits()), v, numHashes);
    }

    method Contains(v: T) returns (found: bool)
      requires Valid()
      ensures found <==> Holds(hash, Bits(), v, numHashes)
      ensures found <==> forall i :: 0 <= i < numHashes ==> Bits()[hash(v, i) % numBits]
    {
      HoldsIs(hash, Bits(), v, numHashes);
      var i := 0;
      while i < numHashes
        invariant i <= numHashes && Holds(hash, Bits(), v, i)
      {
        found := bits.Test(Position(hash, v, i, numBits));
        if !found {
          return;
        }
        i := i + 1;
      }
      return true;
    }

    method Serialize() returns (s: string)
      requires Valid()
      ensures s == Text(Bits()) && |s| == numBits
      ensures forall p :: 0 <= p < numBits ==> s[p] == if Bits()[p] then '1' else '0'
    {
      s := "";
      var i := 0;
      while i < numBits
        invariant i <= numBits && s == Text(Bits())[..i]
      {
        var b := bits.Test(i);
        s := s + [if b then '1' else '0'];
        i := i + 1;
      }
    }

    method Unserialize(s: string) returns (ok: bool)
      requires Valid()
      modifies bits.data
      ensures Valid() && (ok <==> |s| == numBits)
      ensures Bits() == if ok then Parsed(s) else old(Bits())
      ensures ok ==> forall p :: 0 <= p < numBits ==> (Bits()[p] <==> s[p] == '1')
    {
      if |s| != numBits {
        return false;
      }
      ghost var before := Bits();
      var i := 0;
      while i < |s|
        invariant i <= |s| == |before| && Valid() && Bits() == Overwritten(before, s, i)
      {
        bits.Set(i, s[i] == '1');
        i := i + 1;
      }
      OverwrittenAll(before, s);
      return true;
    }
  }

  // ---------------------------------------------------------------- whole runs

  datatype Op<T> = AddOp(value: T) | ClearOp | LoadOp(text: string)

  function Apply<T>(h: Hash<T>, k: nat, bits: seq<bool>, op: Op<T>): (r: seq<bool>)
    requires |bits| > 0
    ensures |r| == |bits|
  {
    match op
    case AddOp(v) => Marked(h, bits, v, k)
    case ClearOp => AllFalse(|bits|)
    case LoadOp(s) => if |s| == |bits| then Parsed(s) else bits
  }

  function RunOps<T>(h: Hash<T>, k: nat, bits: seq<bool>, ops: seq<Op<T>>): (r: seq<bool>)
    requires |bits| > 0
    ensures |r| == |bits|
  {
    if ops == [] then bits else Apply(h, k, RunOps(h, k, bits, ops[..|ops| - 1]), ops[|ops| - 1])
  }

  /** The values added since the bits were last replaced by a clear or a successful load. */
  ghost function Added<T>(n: nat, ops: seq<Op<T>>): set<T> {
    if ops == [] then {}
    else
      var before := Added(n, ops[..|ops| - 1]);
      match ops[|ops| - 1]
      case AddOp(v) => before + {v}
      case ClearOp => {}
      case LoadOp(s) => if |s| == n then {} else before
  }

  /** What the bits were before those additions. */
  ghost function Base<T>(bits: seq<bool>, ops: seq<Op<T>>): (r: seq<bool>)
    ensures |r| == |bits|
  {
    if ops == [] then bits
    else
      match ops[|ops| - 1]
      case AddOp(v) => Base(bits, ops[..|ops| - 1])
      case ClearOp => AllFalse(|bits|)
      case LoadOp(s) => if |s| == |bits| then Parsed(s) else Base(bits, ops[..|ops| - 1])
  }

  ghost predicate HitBy<T(!new)>(h: Hash<T>, k: nat, n: nat, vs: set<T>, p: nat)
    requires n > 0
  {
    exists v :: v in vs && Hit(h, k, n, v, p)
  }

  lemma HitByOneMore<T(!new)>(h: Hash<T>, k: nat, n: nat, vs: set<T>, v: T, p: nat)
    requires n > 0
    ensures HitBy(h, k, n, vs + {v}, p) <==> HitBy(h, k, n, vs, p) || Hit(h, k, n, v, p)
  {
    if Hit(h, k, n, v, p) {
      assert v in vs + {v};
    }
    if HitBy(h, k, n, vs, p) {
      var u :| u in vs && Hit(h, k, n, u, p);
      assert u in vs + {v};
    }
  }

  /** Over every run, a bit is set exactly when it was set at the last replacement or a value added
      since then hashes to it: nothing else ever sets or loses a bit. */
  lemma {:induction false} RunBits<T(!new)>(h: Hash<T>, k: nat, bits: seq<bool>, ops: seq<Op<T>>, p: nat)
    requires p < |bits|
    ensures RunOps(h, k, bits, ops)[p] <==> Base(bits, ops)[p] || HitBy(h, k, |bits|, Added(|bits|, ops), p)
    decreases |ops|
  {
    if ops != [] {
      var n := |ops| - 1;
      RunBits(h, k, bits, ops[..n], p);
      if ops[n].AddOp? {
        MarkedBits(h, RunOps(h, k, bits, ops[..n]), ops[n].value, k, p);
        HitByOneMore(h, k, |bits|, Added(|bits|, ops[..n]), ops[n].value, p);
      }
    }
  }

  /** No false negatives: whatever was added since the last clear or load is found. */
  lemma NoFalseNegatives<T(!new)>(h: Hash<T>, k: nat, bits: seq<bool>, ops: seq<Op<T>>, v: T)
    requires |bits| > 0 && v in Added(|bits|, ops)
    ensures Holds(h, RunOps(h, k, bits, ops), v, k)
  {
    forall i | 0 <= i < k
      ensures RunOps(h, k, bits, ops)[Position(h, v, i, |bits|)]
    {
      var p := Position(h, v, i, |bits|);
      assert Hit(h, k, |bits|, v, p);
      RunBits(h, k, bits, ops, p);
    }
  }

  /** A value is found exactly when every one of its positions was set at the last replacement or is
      covered by a value added since: the rest are the false positives. */
  lemma FoundIff<T(!new)>(h: Hash<T>, k: nat, bits: seq<bool>, ops: seq<Op<T>>, v: T)
    requires |bits| > 0
    ensures Holds(h, RunOps(h, k, bits, ops), v, k)
       <==> forall i :: 0 <= i < k ==>
              (Base(bits, ops)[Position(h, v, i, |bits|)] || HitBy(h, k, |bits|, Added(|bits|, ops), Position(h, v, i, |bits|)))
  {
    forall i | 0 <= i < k
      ensures RunOps(h, k, bits, ops)[Position(h, v, i, |bits|)]
         <==> Base(bits, ops)[Position(h, v, i, |bits|)]
              || HitBy(h, k, |bits|, Added(|bits|, ops), Position(h, v, i, |bits|))
    {
      RunBits(h, k, bits, ops, Position(h, v, i, |bits|));
    }
  }

  /** The text is a faithful copy. */
  lemma TextRoundTrip(bits: seq<bool>)
    ensures Parsed(Text(bits)) == bits
  {
  }

  /** A filter with as many bits and no more hash functions that loads the text of another finds
      everything the other one found, whatever it held before. */
  lemma LoadedFinds<T(!new)>(h: Hash<T>, k: nat, bits: seq<bool>, ops: seq<Op<T>>, k': nat, bits': seq<bool>, v: T)
    requires |bits| == |bits'| > 0 && k' <= k && v in Added(|bits|, ops)
    ensures Holds(h, Apply(h, k', bits', LoadOp(Text(RunOps(h, k, bits, ops)))), v, k')
  {
    NoFalseNegatives(h, k, bits, ops, v);
    TextRoundTrip(RunOps(h, k, bits, ops));
  }
}
