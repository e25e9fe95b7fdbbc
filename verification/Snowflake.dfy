/** The id engine of hj/algo/uuid.hpp as a machine: many threads, one lock, and a clock that may say
    anything at all.

    next_id gives the lock up while it sleeps and keeps it while it spins, so it is split where
    another thread can interfere or the clock is read.  All words are 64 bits wide. */
module Snowflake {

  type uint64 = x: int | 0 <= x < 0x1_0000_0000_0000_0000

  const EPOCH: uint64 := 1735689600000
  const MAX_WORKER: uint64 := 1023
  const SEQ_MASK: uint64 := 4095
  const MAX_BACKWARD: uint64 := 5000

  type Thread = nat

  /** Where a thread stands inside next_id or reset_worker_id. */
  datatype Phase =
    | Idle
    | Entered                               // next_id, lock held, clock not read yet
    | Sleeping                              // lock released
    | Awake                                 // lock taken again
    | Waiting(limit: uint64, wrapped: bool)   // inside _wait_next_millis, lock held
    | Stamped(timestamp: uint64)              // about to choose the sequence number
    | Finishing(timestamp: uint64)            // about to store the timestamp and return
    | Resetting(worker: uint64)               // reset_worker_id, lock held

  /** What one successful next_id packed into its id. */
  datatype Issued = Issued(timestamp: uint64, worker: uint64, serial: uint64)

  datatype Holder = Free | HeldBy(thread: Thread)

  datatype State = State(worker: uint64, serial: uint64, last: uint64, holder: Holder,
                         phases: map<Thread, Phase>, issued: seq<Issued>)

  /** A thread starts a call, or goes on with the one it is in; `now` is what the clock says if read. */
  datatype Action = CallNextId | CallReset(worker: uint64) | Continue(now: uint64)

  function PhaseOf(s: State, t: Thread): Phase {
    if t in s.phases then s.phases[t] else Idle
  }

  function Start(worker: uint64): State {
    State(worker, 0, 0, Free, map[], [])
  }

  function Take(s: State, t: Thread, p: Phase): State {
    if s.holder == Free then s.(holder := HeldBy(t), phases := s.phases[t := p]) else s
  }

  function Release(s: State, t: Thread, p: Phase): State {
    s.(holder := Free, phases := s.phases[t := p])
  }

  function Move(s: State, t: Thread, p: Phase): State {
    s.(phases := s.phases[t := p])
  }

  /** The first clock reading: throw, sleep or go on. */
  function ReadFirst(s: State, t: Thread, now: uint64): State {
    if now < s.last then
      if s.last - now > MAX_BACKWARD then Release(s, t, Idle) else Release(s, t, Sleeping)
    else Move(s, t, Stamped(now))
  }

  /** The reading after the sleep. */
  function ReadAgain(s: State, t: Thread, now: uint64): State {
    Move(s, t, if now < s.last then Waiting(s.last, false) else Stamped(now))
  }

  function Spin(s: State, t: Thread, p: Phase, now: uint64): State
    requires p.Waiting?
  {
    if now <= p.limit then s
    else Move(s, t, if p.wrapped then Finishing(now) else Stamped(now))
  }

  /** The sequence number: one more within a millisecond, zero in a new one. */
  function ChooseSeq(s: State, t: Thread, timestamp: uint64): State {
    if timestamp == s.last then
      var serial := (s.serial + 1) % 4096;
      Move(s.(serial := serial), t, if serial == 0 then Waiting(s.last, true) else Finishing(timestamp))
    else
      Move(s.(serial := 0), t, Finishing(timestamp))
  }

  function Finish(s: State, t: Thread, timestamp: uint64): State {
    Release(s.(last := timestamp, issued := s.issued + [Issued(timestamp, s.worker, s.serial)]), t, Idle)
  }

  function Reset(s: State, t: Thread, worker: uint64): State {
    Release(if worker > MAX_WORKER then s else s.(worker := worker), t, Idle)
  }

  function Step(s: State, t: Thread, a: Action): State {
    match PhaseOf(s, t)
    case Idle => (match a
      case CallNextId => Take(s, t, Entered)
      case CallReset(w) => Take(s, t, Resetting(w))
      case Continue(_) => s)
    case Sleeping => if a.Continue? then Take(s, t, Awake) else s
    case Entered => if a.Continue? then ReadFirst(s, t, a.now) else s
    case Awake => if a.Continue? then ReadAgain(s, t, a.now) else s
    case Waiting(_, _) => if a.Continue? then Spin(s, t, PhaseOf(s, t), a.now) else s
    case Stamped(timestamp) => if a.Continue? then ChooseSeq(s, t, timestamp) else s
    case Finishing(timestamp) => if a.Continue? then Finish(s, t, timestamp) else s
    case Resetting(w) => if a.Continue? then Reset(s, t, w) else s
  }

  datatype Turn = Turn(thread: Thread, action: Action)

  /** Any interleaving: the turns in the order they happen. */
  function Run(s: State, turns: seq<Turn>): State {
    if turns == [] then s
    else
      var n := |turns| - 1;
      Step(Run(s, turns[..n]), turns[n].thread, turns[n].action)
  }

  // ---------------------------------------------------------------- the invariant

  predicate Precedes(a: Issued, b: Issued) {
    a.timestamp < b.timestamp || (a.timestamp == b.timestamp && a.serial < b.serial)
  }

  /** Every issued pair (timestamp, serial) is strictly larger than the ones before it. */
  ghost predicate Increasing(issued: seq<Issued>) {
    forall i, j :: 0 <= i < j < |issued| ==> Precedes(issued[i], issued[j])
  }

  ghost predicate WellFormed(issued: seq<Issued>) {
    forall i :: 0 <= i < |issued| ==> issued[i].worker <= MAX_WORKER && issued[i].serial <= SEQ_MASK
  }

  ghost predicate AtMost(issued: seq<Issued>, timestamp: uint64, serial: uint64) {
    forall i :: 0 <= i < |issued| ==>
      issued[i].timestamp < timestamp || (issued[i].timestamp == timestamp && issued[i].serial <= serial)
  }

  ghost predicate Below(issued: seq<Issued>, timestamp: uint64, serial: uint64) {
    forall i :: 0 <= i < |issued| ==>
      issued[i].timestamp < timestamp || (issued[i].timestamp == timestamp && issued[i].serial < serial)
  }

  predicate Inside(p: Phase) {
    !p.Idle? && !p.Sleeping?
  }

  /** Mutual exclusion: whoever is inside is the one holder of the lock. */
  ghost predicate Exclusive(s: State) {
    && (forall t {:trigger PhaseOf(s, t)} :: Inside(PhaseOf(s, t)) ==> s.holder == HeldBy(t))
    && (s.holder.HeldBy? ==> Inside(PhaseOf(s, s.holder.thread)))
  }

  function Holding(s: State): Phase {
    if s.holder == Free then Idle else PhaseOf(s, s.holder.thread)
  }

  /** How far the issued ids may reach, given what the holder of the lock is doing. */
  ghost predicate Frontier(s: State, p: Phase) {
    match p
    case Stamped(timestamp) => s.last <= timestamp && AtMost(s.issued, s.last, s.serial)
    case Finishing(timestamp) => Below(s.issued, timestamp, s.serial)
    case Waiting(limit, wrapped) =>
      limit == s.last && if wrapped then s.serial == 0 && AtMost(s.issued, s.last, SEQ_MASK) else AtMost(s.issued, s.last, s.serial)
    case _ => AtMost(s.issued, s.last, s.serial)
  }

  ghost predicate Inv(s: State) {
    && s.worker <= MAX_WORKER && s.serial <= SEQ_MASK
    && WellFormed(s.issued) && Increasing(s.issued)
    && Exclusive(s) && Frontier(s, Holding(s))
  }

  lemma ExclusiveMove(s: State, t: Thread, p: Phase)
    requires Exclusive(s) && s.holder == HeldBy(t) && Inside(p)
    ensures Exclusive(Move(s, t, p)) && Holding(Move(s, t, p)) == p
  {
    var s' := Move(s, t, p);
    assert forall u {:trigger PhaseOf(s', u)} :: u != t ==> PhaseOf(s', u) == PhaseOf(s, u);
  }

  lemma ExclusiveRelease(s: State, t: Thread, p: Phase)
    requires Exclusive(s) && s.holder == HeldBy(t) && !Inside(p)
    ensures Exclusive(Release(s, t, p)) && Holding(Release(s, t, p)) == Idle
  {
    var s' := Release(s, t, p);
    assert forall u {:trigger PhaseOf(s', u)} :: u != t ==> PhaseOf(s', u) == PhaseOf(s, u);
  }

  lemma ExclusiveTake(s: State, t: Thread, p: Phase)
    requires Exclusive(s) && s.holder == Free && Inside(p)
    ensures Exclusive(Take(s, t, p)) && Holding(Take(s, t, p)) == p
  {
    var s' := Take(s, t, p);
    assert forall u {:trigger PhaseOf(s', u)} :: u != t ==> PhaseOf(s', u) == PhaseOf(s, u);
  }

  lemma TakeKeeps(s: State, t: Thread, p: Phase)
    requires Inv(s) && Inside(p) && (p.Entered? || p.Awake? || p.Resetting?)
    ensures Inv(Take(s, t, p))
  {
    if s.holder == Free {
      ExclusiveTake(s, t, p);
    }
  }

  lemma ReadsKeep(s: State, t: Thread, now: uint64)
    requires Inv(s) && s.holder == HeldBy(t) && (PhaseOf(s, t).Entered? || PhaseOf(s, t).Awake?)
    ensures Inv(ReadFirst(s, t, now)) && Inv(ReadAgain(s, t, now))
  {
    ExclusiveRelease(s, t, Idle);
    ExclusiveRelease(s, t, Sleeping);
    ExclusiveMove(s, t, Stamped(now));
    ExclusiveMove(s, t, Waiting(s.last, false));
  }

  lemma LaterIsBelow(issued: seq<Issued>, last: uint64, serial: uint64, now: uint64)
    requires AtMost(issued, last, serial) && last < now
    ensures Below(issued, now, 0)
  {
  }

  lemma NextIsBelow(issued: seq<Issued>, last: uint64, serial: uint64)
    requires AtMost(issued, last, serial) && serial <= SEQ_MASK && (serial + 1) % 4096 != 0
    ensures Below(issued, last, (serial + 1) % 4096)
  {
    assert serial < (serial + 1) % 4096;
  }

  lemma SpinKeeps(s: State, t: Thread, now: uint64)
    requires Inv(s) && s.holder == HeldBy(t) && PhaseOf(s, t).Waiting?
    ensures Inv(Spin(s, t, PhaseOf(s, t), now))
  {
    var p := PhaseOf(s, t);
    if now > p.limit {
      ExclusiveMove(s, t, if p.wrapped then Finishing(now) else Stamped(now));
      if p.wrapped {
        LaterIsBelow(s.issued, s.last, SEQ_MASK, now);
      }
    }
  }

  lemma Relaxed(issued: seq<Issued>, last: uint64, serial: uint64)
    requires AtMost(issued, last, serial) && serial <= SEQ_MASK
    ensures AtMost(issued, last, SEQ_MASK)
  {
  }

  lemma ChooseKeeps(s: State, t: Thread, timestamp: uint64)
    requires Inv(s) && s.holder == HeldBy(t) && PhaseOf(s, t) == Stamped(timestamp)
    ensures Inv(ChooseSeq(s, t, timestamp))
  {
    var serial := if timestamp == s.last then (s.serial + 1) % 4096 else 0;
    var p := if timestamp == s.last && serial == 0 then Waiting(s.last, true) else Finishing(timestamp);
    var s' := s.(serial := serial);
    assert Exclusive(s') by {
      assert forall u :: PhaseOf(s', u) == PhaseOf(s, u);
    }
    ExclusiveMove(s', t, p);
    if timestamp != s.last {
      LaterIsBelow(s.issued, s.last, s.serial, timestamp);
    } else if serial != 0 {
      NextIsBelow(s.issued, s.last, s.serial);
    } else {
      Relaxed(s.issued, s.last, s.serial);
    }
  }

  lemma FinishKeeps(s: State, t: Thread, timestamp: uint64)
    requires Inv(s) && s.holder == HeldBy(t) && PhaseOf(s, t) == Finishing(timestamp)
    ensures Inv(Finish(s, t, timestamp))
  {
    var s' := s.(last := timestamp, issued := s.issued + [Issued(timestamp, s.worker, s.serial)]);
    assert Exclusive(s') by {
      assert forall u :: PhaseOf(s', u) == PhaseOf(s, u);
    }
    ExclusiveRelease(s', t, Idle);
  }

  lemma ResetKeeps(s: State, t: Thread, worker: uint64)
    requires Inv(s) && s.holder == HeldBy(t) && PhaseOf(s, t) == Resetting(worker)
    ensures Inv(Reset(s, t, worker))
  {
    var s' := if worker > MAX_WORKER then s else s.(worker := worker);
    assert Exclusive(s') by {
      assert forall u :: PhaseOf(s', u) == PhaseOf(s, u);
    }
    ExclusiveRelease(s', t, Idle);
  }

  /** Every step of every thread, whatever the clock says, keeps the invariant. */
  lemma StepKeeps(s: State, t: Thread, a: Action)
    requires Inv(s)
    ensures Inv(Step(s, t, a))
  {
    match PhaseOf(s, t)
    case Idle =>
      if a.CallNextId? {
        TakeKeeps(s, t, Entered);
      } else if a.CallReset? {
        TakeKeeps(s, t, Resetting(a.worker));
      }
    case Sleeping => TakeKeeps(s, t, Awake);
    case Entered => if a.Continue? { ReadsKeep(s, t, a.now); }
    case Awake => if a.Continue? { ReadsKeep(s, t, a.now); }
    case Waiting(_, _) => if a.Continue? { SpinKeeps(s, t, a.now); }
    case Stamped(timestamp) => ChooseKeeps(s, t, timestamp);
    case Finishing(timestamp) => FinishKeeps(s, t, timestamp);
    case Resetting(w) => ResetKeeps(s, t, w);
  }

  lemma {:induction false} RunKeeps(s: State, turns: seq<Turn>)
    requires Inv(s)
    ensures Inv(Run(s, turns))
    decreases |turns|
  {
    if turns != [] {
      var n := |turns| - 1;
      RunKeeps(s, turns[..n]);
      StepKeeps(Run(s, turns[..n]), turns[n].thread, turns[n].action);
    }
  }
}
