/** The engine object, one caller at a time: next_id and reset_worker_id as written, driven by the
    readings the clock gives, against the machine with a single thread. */
module SnowflakeEngine {
  import opened Snowflake
  import opened SnowflakeIds

  /** Blocked: still spinning, with the lock, when the readings run out. */
  datatype Outcome = Returned(id: bv64) | ClockBackwards | Blocked

  function ReadsClock(p: Phase): bool {
    p.Entered? || p.Awake? || p.Waiting?
  }

  function Rank(p: Phase): nat {
    if p.Sleeping? || p.Stamped? then 3 else if ReadsClock(p) then 2 else if p.Idle? then 0 else 1
  }

  /** Thread t alone goes on with its call, taking readings from position `pos` on. */
  ghost function Alone(s: State, t: Thread, clock: seq<uint64>, pos: nat): State
    requires pos <= |clock|
    decreases |clock| - pos, Rank(PhaseOf(s, t))
  {
    var p := PhaseOf(s, t);
    if p.Idle? || (p.Sleeping? && s.holder != Free) then s
    else if !ReadsClock(p) then Alone(Step(s, t, Continue(0)), t, clock, pos)
    else if pos == |clock| then s
    else Alone(Step(s, t, Continue(clock[pos])), t, clock, pos + 1)
  }

  lemma {:induction false} RunFirst(s: State, first: Turn, rest: seq<Turn>)
    ensures Run(s, [first] + rest) == Run(Step(s, first.thread, first.action), rest)
    decreases |rest|
  {
    if rest == [] {
      assert ([first] + rest)[..0] == [];
    } else {
      var n := |rest| - 1;
      assert ([first] + rest)[..n + 1] == [first] + rest[..n];
      RunFirst(s, first, rest[..n]);
    }
  }

  /** It is one of the machine's runs. */
  lemma {:induction false} AloneIsRun(s: State, t: Thread, clock: seq<uint64>, pos: nat) returns (turns: seq<Turn>)
    requires pos <= |clock|
    ensures Alone(s, t, clock, pos) == Run(s, turns)
    decreases |clock| - pos, Rank(PhaseOf(s, t))
  {
    var p := PhaseOf(s, t);
    if p.Idle? || (p.Sleeping? && s.holder != Free) || (ReadsClock(p) && pos == |clock|) {
      turns := [];
    } else {
      var a := Continue(if ReadsClock(p) then clock[pos] else 0);
      var rest := AloneIsRun(Step(s, t, a), t, clock, if ReadsClock(p) then pos + 1 else pos);
      turns := [Turn(t, a)] + rest;
      RunFirst(s, Turn(t, a), rest);
    }
  }

  /** Thread 0 inside its call, everyone else outside. */
  ghost function In(w: uint64, q: uint64, l: uint64, p: Phase): State {
    State(w, q, l, HeldBy(0), map[0 := p], [])
  }

  lemma FirstReading(w: uint64, q: uint64, l: uint64, clock: seq<uint64>)
    requires |clock| > 0
    ensures var now := clock[0]; var end := Alone(In(w, q, l, Entered), 0, clock, 0);
            if now >= l then end == Alone(In(w, q, l, Stamped(now)), 0, clock, 1)
            else if l - now > MAX_BACKWARD then end == State(w, q, l, Free, map[0 := Idle], [])
            else end == Alone(In(w, q, l, Awake), 0, clock, 1)
  {
    var s := In(w, q, l, Entered);
    var now := clock[0];
    if now >= l {
      assert Step(s, 0, Continue(now)) == In(w, q, l, Stamped(now));
    } else if l - now > MAX_BACKWARD {
      assert Step(s, 0, Continue(now)) == State(w, q, l, Free, map[0 := Idle], []);
    } else {
      assert Step(s, 0, Continue(now)) == State(w, q, l, Free, map[0 := Sleeping], []);
      assert Step(Step(s, 0, Continue(now)), 0, Continue(0)) == In(w, q, l, Awake);
    }
  }

  lemma SecondReading(w: uint64, q: uint64, l: uint64, clock: seq<uint64>)
    requires |clock| > 1
    ensures var now := clock[1];
            Alone(In(w, q, l, Awake), 0, clock, 1)
            == Alone(In(w, q, l, if now < l then Waiting(l, false) else Stamped(now)), 0, clock, 2)
  {
    var now := clock[1];
    assert Step(In(w, q, l, Awake), 0, Continue(now)) == In(w, q, l, if now < l then Waiting(l, false) else Stamped(now));
  }

  lemma Choosing(w: uint64, q: uint64, l: uint64, t: uint64, clock: seq<uint64>, pos: nat)
    requires pos <= |clock| && q <= SEQ_MASK
    ensures var q' := if t == l then (q + 1) % 4096 else 0;
            Alone(In(w, q, l, Stamped(t)), 0, clock, pos)
            == Alone(In(w, q', l, if t == l && q' == 0 then Waiting(l, true) else Finishing(t)), 0, clock, pos)
  {
    var q' := if t == l then (q + 1) % 4096 else 0;
    assert Step(In(w, q, l, Stamped(t)), 0, Continue(0))
        == In(w, q', l, if t == l && q' == 0 then Waiting(l, true) else Finishing(t));
  }

  lemma FinishingLast(w: uint64, q: uint64, l: uint64, t: uint64, clock: seq<uint64>, pos: nat)
    requires pos <= |clock|
    ensures Alone(In(w, q, l, Finishing(t)), 0, clock, pos) == State(w, q, t, Free, map[0 := Idle], [Issued(t, w, q)])
  {
    assert Step(In(w, q, l, Finishing(t)), 0, Continue(0)) == State(w, q, t, Free, map[0 := Idle], [Issued(t, w, q)]);
  }

  lemma {:induction false} Spinning(w: uint64, q: uint64, l: uint64, wrapped: bool, clock: seq<uint64>, pos: nat, past: nat)
    requires pos <= past <= |clock| && forall i :: pos <= i < past ==> clock[i] <= l
    ensures Alone(In(w, q, l, Waiting(l, wrapped)), 0, clock, pos)
         == if past == |clock| then In(w, q, l, Waiting(l, wrapped))
            else Alone(In(w, q, l, Waiting(l, wrapped)), 0, clock, past)
    decreases past - pos
  {
    if pos < past {
      Spinning(w, q, l, wrapped, clock, pos + 1, past);
    }
  }

  lemma SpinningEnds(w: uint64, q: uint64, l: uint64, wrapped: bool, clock: seq<uint64>, pos: nat)
    requires pos < |clock| && clock[pos] > l
    ensures Alone(In(w, q, l, Waiting(l, wrapped)), 0, clock, pos)
         == Alone(In(w, q, l, if wrapped then Finishing(clock[pos]) else Stamped(clock[pos])), 0, clock, pos + 1)
  {
    assert Step(In(w, q, l, Waiting(l, wrapped)), 0, Continue(clock[pos]))
        == In(w, q, l, if wrapped then Finishing(clock[pos]) else Stamped(clock[pos]));
  }

  /** The result says how the call ended: an id was issued, it threw, or it still holds the lock. */
  ghost predicate Reports(r: Outcome, s: State) {
    match r
    case Returned(id) => s.holder == Free && |s.issued| == 1 && id == Id(s.issued[0])
    case ClockBackwards => s.holder == Free && s.issued == []
    case Blocked => s.holder == HeldBy(0)
  }

  /** _wait_next_millis: the first reading past `limit`, if there is one. */
  method WaitNextMillis(ghost w: uint64, ghost q: uint64, ghost wrapped: bool, limit: uint64, clock: seq<uint64>, start: nat)
    returns (ok: bool, timestamp: uint64, pos: nat)
    requires start <= |clock|
    ensures start <= pos <= |clock|
    ensures ok ==> start < pos && timestamp == clock[pos - 1] > limit && forall i :: start <= i < pos - 1 ==> clock[i] <= limit
    ensures !ok ==> forall i :: start <= i < |clock| ==> clock[i] <= limit
    ensures Alone(In(w, q, limit, Waiting(limit, wrapped)), 0, clock, start)
         == if ok then Alone(In(w, q, limit, if wrapped then Finishing(timestamp) else Stamped(timestamp)), 0, clock, pos)
            else In(w, q, limit, Waiting(limit, wrapped))
  {
    ok, timestamp, pos := false, limit, start;
    while !ok && pos < |clock|
      invariant start <= pos <= |clock|
      invariant ok ==> start < pos && timestamp == clock[pos - 1] > limit && forall i :: start <= i < pos - 1 ==> clock[i] <= limit
      invariant !ok ==> forall i :: start <= i < pos ==> clock[i] <= limit
      decreases |clock| - pos, !ok
    {
      timestamp := clock[pos];
      ok := timestamp > limit;
      pos := pos + 1;
    }
    if ok {
      Spinning(w, q, limit, wrapped, clock, start, pos - 1);
      SpinningEnds(w, q, limit, wrapped, clock, pos - 1);
    } else {
      Spinning(w, q, limit, wrapped, clock, start, pos);
    }
  }

  /** The first reading past `limit` from position `from` on. */
  ghost predicate FirstPast(clock: seq<uint64>, from: nat, limit: uint64, p: nat) {
    from <= p < |clock| && clock[p] > limit && forall i :: from <= i < p ==> clock[i] <= limit
  }

  class Engine {
    var workerId: uint64
    var sequence: uint64
    var lastTimestamp: uint64

    ghost predicate Valid()
      reads this
    {
      workerId <= MAX_WORKER && sequence <= SEQ_MASK
    }

    /** The machine between calls. */
    ghost function Rest(): State
      reads this
    {
      State(workerId, sequence, lastTimestamp, Free, map[], [])
    }

    ghost predicate Holds(s: State)
      reads this
    {
      workerId == s.worker && sequence == s.serial && lastTimestamp == s.last
    }

    /** The call returned this timestamp and sequence number, and they are the newest ones now. */
    ghost predicate Issues(r: Outcome, timestamp: uint64, serial: uint64)
      reads this
    {
      r == Returned(Id(Issued(timestamp, workerId, serial))) && lastTimestamp == timestamp && sequence == serial
    }

    constructor (worker: uint64)
      requires worker <= MAX_WORKER
      ensures Valid() && Rest() == Start(worker)
    {
      workerId, sequence, lastTimestamp := worker, 0, 0;
    }

    method ResetWorkerId(worker: uint64) returns (ok: bool)
      requires Valid()
      modifies this
      ensures Valid() && (ok <==> worker <= MAX_WORKER)
      ensures Holds(Alone(Step(old(Rest()), 0, CallReset(worker)), 0, [], 0))
      ensures ok <==> worker <= 1023
      ensures workerId == if ok then worker else old(workerId)
      ensures sequence == old(sequence) && lastTimestamp == old(lastTimestamp)
    {
      ok := worker <= MAX_WORKER;
      if ok {
        workerId := worker;
      }
    }

    /** The sequence number, and the timestamp it goes with (hj/algo/uuid.hpp:184-192). */
    method ChooseSerial(timestamp: uint64, clock: seq<uint64>, pos: nat) returns (ok: bool, stamp: uint64, ghost past: nat)
      requires Valid() && pos <= |clock|
      modifies this`sequence
      ensures Valid() && pos <= past <= |clock|
      ensures Alone(In(workerId, old(sequence), lastTimestamp, Stamped(timestamp)), 0, clock, pos)
           == if ok then Alone(In(workerId, sequence, lastTimestamp, Finishing(stamp)), 0, clock, past)
              else In(workerId, sequence, lastTimestamp, Waiting(lastTimestamp, true))
      ensures timestamp != lastTimestamp ==> ok && stamp == timestamp && sequence == 0
      ensures timestamp == lastTimestamp && old(sequence) < 4095 ==> ok && stamp == timestamp && sequence == old(sequence) + 1
      ensures timestamp == lastTimestamp && old(sequence) == 4095 ==>
                && sequence == 0 && (ok <==> exists i :: pos <= i < |clock| && clock[i] > timestamp)
                && forall p: nat :: FirstPast(clock, pos, timestamp, p) ==> stamp == clock[p]
    {
      Choosing(workerId, sequence, lastTimestamp, timestamp, clock, pos);
      ok, stamp, past := true, timestamp, pos;
      if stamp == lastTimestamp {
        sequence := (sequence + 1) % 4096;
        if sequence == 0 {
          var next: nat;
          ok, stamp, next := WaitNextMillis(workerId, sequence, true, lastTimestamp, clock, pos);
          past := next;
        }
      } else {
        sequence := 0;
      }
    }

    /** The sequence number, the timestamp and the id (hj/algo/uuid.hpp:184-195). */
    method Stamp(timestamp: uint64, clock: seq<uint64>, pos: nat) returns (r: Outcome)
      requires Valid() && pos <= |clock|
      modifies this
      ensures var end := Alone(In(old(workerId), old(sequence), old(lastTimestamp), Stamped(timestamp)), 0, clock, pos);
              Valid() && Holds(end) && Reports(r, end)
      ensures workerId == old(workerId) && r != ClockBackwards
      ensures timestamp != old(lastTimestamp) ==> Issues(r, timestamp, 0)
      ensures timestamp == old(lastTimestamp) && old(sequence) < 4095 ==> Issues(r, timestamp, old(sequence) + 1)
      ensures timestamp == old(lastTimestamp) && old(sequence) == 4095 ==>
                if forall i :: pos <= i < |clock| ==> clock[i] <= timestamp then r == Blocked
                else forall p: nat :: FirstPast(clock, pos, timestamp, p) ==> Issues(r, clock[p], 0)
    {
      ghost var l := lastTimestamp;
      var ok, stamp, past := ChooseSerial(timestamp, clock, pos);
      if !ok {
        return Blocked;
      }
      FinishingLast(workerId, sequence, l, stamp, clock, past);
      lastTimestamp := stamp;
      return Returned(Id(Issued(stamp, workerId, sequence)));
    }

    method NextId(clock: seq<uint64>) returns (r: Outcome)
      requires Valid()
      modifies this
      ensures Valid() && Holds(Alone(Step(old(Rest()), 0, CallNextId), 0, clock, 0))
      ensures Reports(r, Alone(Step(old(Rest()), 0, CallNextId), 0, clock, 0))
      ensures workerId == old(workerId)
      // thrown only when the clock is more than five seconds behind, and then nothing has changed
      ensures r == ClockBackwards <==> |clock| > 0 && clock[0] < old(lastTimestamp) && old(lastTimestamp) - clock[0] > 5000
      ensures r == ClockBackwards ==> sequence == old(sequence) && lastTimestamp == old(lastTimestamp)
      // a new millisecond, the same one, and the same one with no number left
      ensures |clock| > 0 && clock[0] > old(lastTimestamp) ==> Issues(r, clock[0], 0)
      ensures |clock| > 0 && clock[0] == old(lastTimestamp) && old(sequence) < 4095 ==>
                Issues(r, clock[0], old(sequence) + 1)
      ensures |clock| > 0 && clock[0] == old(lastTimestamp) && old(sequence) == 4095 ==>
                forall p: nat :: FirstPast(clock, 1, clock[0], p) ==> Issues(r, clock[p], 0)
      // a little behind: the second reading decides, or the first one past the last timestamp
      ensures |clock| > 1 && clock[0] < old(lastTimestamp) && old(lastTimestamp) - clock[0] <= 5000 ==>
                && (clock[1] > old(lastTimestamp) ==> Issues(r, clock[1], 0))
                && (clock[1] == old(lastTimestamp) && old(sequence) < 4095 ==> Issues(r, clock[1], old(sequence) + 1))
                && (clock[1] == old(lastTimestamp) && old(sequence) == 4095 ==>
                      forall p: nat :: FirstPast(clock, 2, clock[1], p) ==> Issues(r, clock[p], 0))
                && (clock[1] < old(lastTimestamp) ==>
                      forall p: nat :: FirstPast(clock, 2, old(lastTimestamp), p) ==> Issues(r, clock[p], 0))
      ensures (forall i :: 0 <= i < |clock| ==> clock[i] < old(lastTimestamp) && old(lastTimestamp) - clock[i] <= 5000) ==> r == Blocked
    {
      ghost var w, q, l := workerId, sequence, lastTimestamp;
      ghost var end := Alone(In(w, q, l, Entered), 0, clock, 0);
      assert Step(Rest(), 0, CallNextId) == In(w, q, l, Entered);
      if |clock| == 0 {
        return Blocked;
      }
      var pos, timestamp := 1, clock[0];
      FirstReading(w, q, l, clock);
      if timestamp < lastTimestamp {
        var offset := lastTimestamp - timestamp;
        if offset > MAX_BACKWARD {
          return ClockBackwards;
        }
        if |clock| == 1 {
          return Blocked;
        }
        pos, timestamp := 2, clock[1];
        SecondReading(w, q, l, clock);
        if timestamp < lastTimestamp {
          var ok: bool;
          ok, timestamp, pos := WaitNextMillis(w, q, false, lastTimestamp, clock, pos);
          if !ok {
            return Blocked;
          }
        }
      }
      r := Stamp(timestamp, clock, pos);
    }
  }
}
