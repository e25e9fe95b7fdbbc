/** The ids an engine issues: packing, uniqueness, order and rate. */
module SnowflakeIds {
  import opened Words64
  import opened Snowflake

  const MODULUS: int := 0x1_0000_0000_0000_0000
  const SPAN: int := 0x400_0000_0000          // the 42 bits left for milliseconds

  /** `timestamp - epoch` in unsigned 64-bit arithmetic. */
  function Age(r: Issued): nat {
    (r.timestamp - EPOCH) % MODULUS
  }

  /** The returned word: timestamp above worker above sequence number. */
  function Id(r: Issued): bv64 {
    (Word(Age(r)) << 22) | (Word(r.worker) << 12) | Word(r.serial)
  }

  function Packed(r: Issued): nat {
    (Age(r) * 1024 + r.worker) * 4096 + r.serial
  }

  predicate Legal(r: Issued) {
    r.worker <= MAX_WORKER && r.serial <= SEQ_MASK
  }

  /** The clock was between the epoch and 2^42 ms later. */
  predicate InRange(r: Issued) {
    EPOCH <= r.timestamp < EPOCH + SPAN
  }

  lemma IdIsUnion(r: Issued, id: bv64, t: bv64, w: bv64, s: bv64)
    requires id == Id(r) && t == Word(Age(r)) && w == Word(r.worker) && s == Word(r.serial)
    ensures id == (t << 22) | (w << 12) | s
  {
  }

  lemma Pow2Values()
    ensures Pow2(6) == 64 && Pow2(10) == 1024 && Pow2(12) == 4096 && Pow2(42) == SPAN && Pow2(64) == MODULUS
  {
    assert Pow2(20) == 0x10_0000;
    assert Pow2(30) == 0x4000_0000;
    assert Pow2(40) == 0x100_0000_0000;
    assert Pow2(50) == 0x4_0000_0000_0000;
    assert Pow2(60) == 0x1000_0000_0000_0000;
  }

  lemma FieldsJoin(r: Issued, a: nat)
    requires Legal(r) && a == Age(r) * 1024 + r.worker
    ensures Word(a) == Or(Up(Word(Age(r)), 10), Word(r.worker))
    ensures Word(Packed(r)) == Or(Up(Word(a), 12), Word(r.serial))
  {
    Pow2Values();
    Join(Age(r), r.worker, 10, a);
    Join(a, r.serial, 12, Packed(r));
  }

  lemma ThreeFields(t: bv64, w: bv64, s: bv64, a: bv64)
    requires a == Or(t << 10, w)
    ensures Or(a << 12, s) == (t << 22) | (w << 12) | s
  {
  }

  lemma JoinedFields(t: bv64, w: bv64, s: bv64, a: bv64, n: bv64)
    requires a == Or(Up(t, 10), w) && n == Or(Up(a, 12), s)
    ensures n == (t << 22) | (w << 12) | s
  {
    Up10(t);
    Up12(a);
    ThreeFields(t, w, s, a);
  }

  lemma PackedIs(r: Issued, id: bv64, t: bv64, w: bv64, s: bv64, a: nat, u: bv64, n: bv64)
    requires Legal(r) && a == Age(r) * 1024 + r.worker
    requires id == Id(r) && t == Word(Age(r)) && w == Word(r.worker) && s == Word(r.serial)
    requires u == Word(a) && n == Word(Packed(r))
    ensures id == n
  {
    FieldsJoin(r, a);
    JoinedFields(t, w, s, u, n);
    IdIsUnion(r, id, t, w, s);
  }

  lemma IdIsPacked(r: Issued)
    requires Legal(r)
    ensures Id(r) == Word(Packed(r))
  {
    var a := Age(r) * 1024 + r.worker;
    PackedIs(r, Id(r), Word(Age(r)), Word(r.worker), Word(r.serial), a, Word(a), Word(Packed(r)));
  }

  /** The part of the age the id has room for. */
  function Wrapped(r: Issued): (t: nat)
    ensures t < SPAN
  {
    (r.timestamp - EPOCH) % SPAN
  }

  /** The id as an unsigned number. */
  function IdNumber(r: Issued): nat {
    Packed(r) % MODULUS
  }

  lemma AgeInSpan(x: int)
    ensures x % MODULUS % SPAN == x % SPAN
  {
  }

  lemma Remainder(n: nat, q: nat, rest: nat)
    requires n == q * MODULUS + rest && rest < MODULUS
    ensures n % MODULUS == rest
  {
  }

  lemma IdNumberFields(r: Issued)
    requires Legal(r)
    ensures IdNumber(r) == Wrapped(r) * 0x40_0000 + r.worker * 4096 + r.serial
  {
    var q, t := Age(r) / SPAN, Age(r) % SPAN;
    AgeInSpan(r.timestamp - EPOCH);
    Remainder(Packed(r), q, t * 0x40_0000 + r.worker * 4096 + r.serial);
  }

  /** Midnight of 1 January 2025: 55 years and 14 leap days after 1970, in milliseconds. */
  lemma EpochIs()
    ensures EPOCH == (55 * 365 + 14) * 24 * 60 * 60 * 1000
  {
  }

  /** Milliseconds since then above 10 bits of worker above 12 bits of sequence number. */
  lemma IdNumberDigits(r: Issued)
    requires Legal(r)
    ensures IdNumber(r) == (r.timestamp - 1735689600000) % 0x400_0000_0000 * 0x40_0000 + r.worker * 0x1000 + r.serial
  {
    IdNumberFields(r);
  }

  /** The eighth id of the first millisecond of 2025, from worker 5. */
  lemma IdExample(r: Issued)
    requires r == Issued(1735689600001, 5, 7)
    ensures IdNumber(r) == 0x40_5007
  {
    IdNumberFields(r);
  }

  lemma IdNumberIsId(r: Issued)
    requires Legal(r)
    ensures Id(r) == Word(IdNumber(r)) && IdNumber(r) < MODULUS
  {
    IdIsPacked(r);
    Pow2Values();
    WordWraps(Packed(r), 64);
  }

  lemma SameFields(t: nat, w: nat, s: nat, t': nat, w': nat, s': nat)
    requires w < 1024 && s < 4096 && w' < 1024 && s' < 4096
    ensures t * 0x40_0000 + w * 4096 + s == t' * 0x40_0000 + w' * 4096 + s' <==> t == t' && w == w' && s == s'
  {
  }

  lemma FieldOrder(t: nat, w: nat, s: nat, t': nat, s': nat)
    requires w < 1024 && s < 4096 && s' < 4096
    ensures t * 0x40_0000 + w * 4096 + s < t' * 0x40_0000 + w * 4096 + s' <==> t < t' || (t == t' && s < s')
  {
  }

  lemma SameAge(x: int, y: int)
    ensures x % SPAN == y % SPAN <==> (x - y) % SPAN == 0
  {
  }

  lemma SameWrappedIff(a: Issued, b: Issued)
    ensures Wrapped(a) == Wrapped(b) <==> (a.timestamp - b.timestamp) % SPAN == 0
  {
    SameAge(a.timestamp - EPOCH, b.timestamp - EPOCH);
  }

  lemma SameNumberIff(a: Issued, b: Issued)
    requires Legal(a) && Legal(b)
    ensures IdNumber(a) == IdNumber(b) <==> a.worker == b.worker && a.serial == b.serial && Wrapped(a) == Wrapped(b)
  {
    IdNumberFields(a);
    IdNumberFields(b);
    SameFields(Wrapped(a), a.worker, a.serial, Wrapped(b), b.worker, b.serial);
  }

  /** Exactly when two ids are the same word: same worker, same sequence number, and timestamps a
      multiple of 2^42 milliseconds apart. */
  lemma SameIdIff(a: Issued, b: Issued)
    requires Legal(a) && Legal(b)
    ensures Id(a) == Id(b)
       <==> a.worker == b.worker && a.serial == b.serial && (a.timestamp - b.timestamp) % SPAN == 0
  {
    IdIsPacked(a);
    IdIsPacked(b);
    Pow2Values();
    WordsEqualIff(Packed(a), Packed(b));
    SameNumberIff(a, b);
    SameWrappedIff(a, b);
  }

  /** Exactly when one id is smaller than another of the same worker. */
  lemma IdOrderIff(a: Issued, b: Issued)
    requires Legal(a) && Legal(b) && a.worker == b.worker
    ensures IdNumber(a) < IdNumber(b) <==> Wrapped(a) < Wrapped(b) || (Wrapped(a) == Wrapped(b) && a.serial < b.serial)
  {
    IdNumberFields(a);
    IdNumberFields(b);
    FieldOrder(Wrapped(a), a.worker, a.serial, Wrapped(b), b.serial);
  }

  /** Which stretch of 2^42 milliseconds the clock was in. */
  function Era(r: Issued): int {
    (r.timestamp - EPOCH) / SPAN
  }

  lemma WithinEra(a: Issued, b: Issued)
    requires Era(a) == Era(b)
    ensures Wrapped(b) - Wrapped(a) == b.timestamp - a.timestamp
  {
  }

  // ---------------------------------------------------------------- what every run keeps

  /** Over every interleaving and every clock, the issued (timestamp, serial) pairs only grow, and the
      fields stay within their widths. */
  lemma EveryRun(worker: uint64, turns: seq<Turn>)
    requires worker <= MAX_WORKER
    ensures Inv(Run(Start(worker), turns))
  {
    RunKeeps(Start(worker), turns);
  }

  /** What the engine has issued after an interleaving. */
  function IssuedBy(worker: uint64, turns: seq<Turn>): seq<Issued>
    requires worker <= MAX_WORKER
  {
    Run(Start(worker), turns).issued
  }

  /** Two ids of one engine coincide only when the clock had to move on by 2^42 ms between them,
      whoever asked, whenever the worker id was reset and however the clock jumped. */
  lemma IdsDistinct(worker: uint64, turns: seq<Turn>, i: nat, j: nat)
    requires worker <= MAX_WORKER && i < j < |IssuedBy(worker, turns)|
    ensures var a, b := IssuedBy(worker, turns)[i], IssuedBy(worker, turns)[j];
            && (Id(a) == Id(b) <==> a.worker == b.worker && a.serial == b.serial && (b.timestamp - a.timestamp) % SPAN == 0)
            && (b.timestamp - a.timestamp < SPAN ==> Id(a) != Id(b))
  {
    EveryRun(worker, turns);
    SameIdIff(IssuedBy(worker, turns)[j], IssuedBy(worker, turns)[i]);
  }

  /** While the worker id is the same, ids are ordered as their wrapped ages and sequence numbers, so they
      strictly increase as long as the clock stays in one stretch of 2^42 ms. */
  lemma IdsIncrease(worker: uint64, turns: seq<Turn>, i: nat, j: nat)
    requires worker <= MAX_WORKER && i < j < |IssuedBy(worker, turns)|
    requires IssuedBy(worker, turns)[i].worker == IssuedBy(worker, turns)[j].worker
    ensures var a, b := IssuedBy(worker, turns)[i], IssuedBy(worker, turns)[j];
            && (IdNumber(a) < IdNumber(b) <==> Wrapped(a) < Wrapped(b) || (Wrapped(a) == Wrapped(b) && a.serial < b.serial))
            && (Era(a) == Era(b) ==> IdNumber(a) < IdNumber(b))
  {
    EveryRun(worker, turns);
    var a, b := IssuedBy(worker, turns)[i], IssuedBy(worker, turns)[j];
    IdOrderIff(a, b);
    if Era(a) == Era(b) {
      WithinEra(a, b);
    }
  }

  /** Engines with different worker ids never issue the same id, whatever their clocks. */
  lemma WorkersNeverCollide(a: Issued, b: Issued)
    requires Legal(a) && Legal(b) && a.worker != b.worker
    ensures Id(a) != Id(b)
  {
    SameIdIff(a, b);
  }

  // ---------------------------------------------------------------- the rate

  ghost function CountAt(issued: seq<Issued>, timestamp: uint64): nat {
    if issued == [] then 0
    else CountAt(issued[..|issued| - 1], timestamp) + if issued[|issued| - 1].timestamp == timestamp then 1 else 0
  }

  lemma {:induction false} CountBound(issued: seq<Issued>, timestamp: uint64)
    requires WellFormed(issued) && Increasing(issued)
    ensures CountAt(issued, timestamp) <= 4096
    ensures issued != [] ==>
              var r := issued[|issued| - 1];
              (r.timestamp == timestamp ==> CountAt(issued, timestamp) <= r.serial + 1)
              && (r.timestamp < timestamp ==> CountAt(issued, timestamp) == 0)
    decreases |issued|
  {
    if issued != [] {
      var n := |issued| - 1;
      CountBound(issued[..n], timestamp);
      if n > 0 {
        assert Precedes(issued[n - 1], issued[n]);
        assert issued[..n][n - 1] == issued[n - 1];
      }
    }
  }

  /** At most 4096 ids share a millisecond. */
  lemma RateBound(worker: uint64, turns: seq<Turn>, timestamp: uint64)
    requires worker <= MAX_WORKER
    ensures CountAt(IssuedBy(worker, turns), timestamp) <= 4096
  {
    EveryRun(worker, turns);
    CountBound(IssuedBy(worker, turns), timestamp);
  }

  /** At every moment of every run at most one thread is between taking and giving up the lock. */
  lemma MutualExclusion(worker: uint64, turns: seq<Turn>, t: Thread, u: Thread)
    requires worker <= MAX_WORKER
    requires Inside(PhaseOf(Run(Start(worker), turns), t)) && Inside(PhaseOf(Run(Start(worker), turns), u))
    ensures t == u
  {
    EveryRun(worker, turns);
  }

  // ---------------------------------------------------------------- decoding

  function AgeOf(id: bv64): bv64 { id >> 22 }
  function WorkerOf(id: bv64): bv64 { (id >> 12) & 0x3FF }
  function SerialOf(id: bv64): bv64 { id & 0xFFF }

  lemma FieldBits(id: bv64, t: bv64, w: bv64, s: bv64)
    requires id == (t << 22) | (w << 12) | s
    requires t >> 42 == 0 && w >> 10 == 0 && s >> 12 == 0
    ensures AgeOf(id) == t && WorkerOf(id) == w && SerialOf(id) == s
  {
  }

  /** The fields of a record as words below their widths. */
  lemma FieldWords(r: Issued)
    requires Legal(r) && InRange(r)
    ensures Word(Age(r)) >> 42 == 0 && Word(r.worker) >> 10 == 0 && Word(r.serial) >> 12 == 0
  {
    Pow2Values();
    WordFits(Age(r), 42);
    WordFits(r.worker, 10);
    WordFits(r.serial, 12);
    Fits42(Word(Age(r)));
    Fits10(Word(r.worker));
    Fits12(Word(r.serial));
  }

  lemma FieldsFit(r: Issued, t: bv64, w: bv64, s: bv64)
    requires Legal(r) && InRange(r) && t == Word(Age(r)) && w == Word(r.worker) && s == Word(r.serial)
    ensures t >> 42 == 0 && w >> 10 == 0 && s >> 12 == 0
  {
    FieldWords(r);
  }

  lemma Decodes(r: Issued, id: bv64, t: bv64, w: bv64, s: bv64)
    requires Legal(r) && InRange(r)
    requires id == Id(r) && t == Word(Age(r)) && w == Word(r.worker) && s == Word(r.serial)
    ensures AgeOf(id) == t && WorkerOf(id) == w && SerialOf(id) == s
  {
    FieldsFit(r, t, w, s);
    IdIsUnion(r, id, t, w, s);
    FieldBits(id, t, w, s);
  }

  /** The record inside the 42 bits with the same id. */
  function Normal(r: Issued): (n: Issued)
    ensures InRange(n) && Age(n) == Wrapped(r) && n.worker == r.worker && n.serial == r.serial
  {
    Issued(EPOCH + Wrapped(r), r.worker, r.serial)
  }

  lemma NormalSameId(r: Issued)
    requires Legal(r)
    ensures Id(Normal(r)) == Id(r)
  {
    SameWrappedIff(Normal(r), r);
    SameIdIff(Normal(r), r);
  }

  /** The id gives back the age modulo 2^42, the worker and the sequence number. */
  lemma IdDecodes(r: Issued, id: bv64)
    requires Legal(r) && id == Id(r)
    ensures AgeOf(id) == Word(Wrapped(r)) && WorkerOf(id) == Word(r.worker) && SerialOf(id) == Word(r.serial)
  {
    NormalSameId(r);
    Decodes(Normal(r), id, Word(Wrapped(r)), Word(r.worker), Word(r.serial));
  }
}
