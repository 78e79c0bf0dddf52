/** Hybrid logical clock: timestamps (pkg/util/hlc/timestamp.go) and one clock (pkg/util/hlc/hlc.go). */
module Hlc {
  import opened GoInts
  import opened Wrappers

  datatype Timestamp = Timestamp(wall: int64, logical: int32)

  // ------------------------------------------------- timestamps

  predicate Less(t: Timestamp, s: Timestamp) {
    t.wall < s.wall || (t.wall == s.wall && t.logical < s.logical)
  }

  predicate LessEq(t: Timestamp, s: Timestamp) {
    Less(t, s) || t == s
  }

  /** Next; None where the source panics. */
  function Next(t: Timestamp): Option<Timestamp> {
    if t.logical == MAX_INT32 then
      if t.wall == MAX_INT64 then None else Some(Timestamp(t.wall + 1, 0))
    else Some(Timestamp(t.wall, t.logical + 1))
  }

  /** Prev; None where the source panics. */
  function Prev(t: Timestamp): Option<Timestamp> {
    if t.logical > 0 then Some(Timestamp(t.wall, t.logical - 1))
    else if t.wall > 0 then Some(Timestamp(t.wall - 1, MAX_INT32))
    else None
  }

  /** The timestamps clocks hand out. */
  predicate Proper(t: Timestamp) {
    t.wall >= 0 && t.logical >= 0
  }

  /** Next is the least timestamp after t, and Prev takes it back. */
  lemma NextIsNext(t: Timestamp, s: Timestamp)
    requires Proper(t) && Proper(s)
    ensures Less(t, s) <==> Next(t).Some? && LessEq(Next(t).value, s)
    ensures Next(t).Some? ==> Prev(Next(t).value) == Some(t)
    ensures Prev(t).Some? ==> Next(Prev(t).value) == Some(t)
    ensures Next(t) == None <==> t == Timestamp(MAX_INT64, MAX_INT32)
    ensures Prev(t) == None <==> t == Timestamp(0, 0)
  {
    if t.logical == MAX_INT32 && t.wall < MAX_INT64 {
      assert Less(t, s) ==> s.wall >= t.wall + 1;
    }
  }

  function Max(t: Timestamp, s: Timestamp): Timestamp {
    if Less(t, s) then s else t
  }

  /** Forward changes the receiver, given here as the cell holding it. */
  class Cell {
    var t: Timestamp

    method Forward(s: Timestamp) returns (adjusted: bool)
      modifies this
      ensures t == Max(old(t), s)
      ensures adjusted == (t != old(t))
    {
      if Less(t, s) {
        t := s;
        return true;
      }
      return false;
    }
  }

  // ------------------------------------------------- one clock

  /** The locked part of Now. */
  function Tick(t: Timestamp, reading: int64): Timestamp {
    if t.wall >= reading then Timestamp(t.wall, ToInt32(t.logical + 1)) else Timestamp(reading, 0)
  }

  /** A tick moves the clock forward exactly unless the logical counter has to wrap. */
  lemma TickAdvances(t: Timestamp, reading: int64)
    ensures Less(t, Tick(t, reading)) <==> reading > t.wall || t.logical < MAX_INT32
  {
  }

  /** A tick hands out the least proper timestamp after the clock's own and not before the reading,
      unless the counter has to wrap. */
  lemma TickIsLeast(t: Timestamp, reading: int64, s: Timestamp)
    requires Proper(t) && Proper(s) && (reading > t.wall || t.logical < MAX_INT32)
    requires Less(t, s) && s.wall >= reading
    ensures var r := Tick(t, reading); Proper(r) && Less(t, r) && r.wall >= reading && LessEq(r, s)
  {
  }

  /** A counter that has to wrap becomes the least int32, and the clock steps back. */
  lemma TickWraps(t: Timestamp, reading: int64)
    requires t.wall >= reading && t.logical == MAX_INT32
    ensures Tick(t, reading) == Timestamp(t.wall, -0x8000_0000) && Less(Tick(t, reading), t)
  {
  }

  /** Whether enforceWallTimeWithinBoundLocked lets the process live. */
  predicate WithinBound(t: Timestamp, bound: int64) {
    bound == 0 || t.wall <= bound
  }

  /** The remote check of UpdateAndCheckMaxOffset: the offset is computed in 64 bits. */
  predicate Trusted(rt: Timestamp, reading: int64, maxOffset: int64) {
    !(maxOffset > 0 && ToInt64(rt.wall - reading) > maxOffset)
  }

  /** The check refuses every timestamp too far ahead exactly of readings from 1970 on: at any
      earlier one the wrapped difference lets the farthest future through. For proper timestamps
      the check is right exactly when the true difference fits 64 bits. */
  lemma TrustedMeans(rt: Timestamp, reading: int64, maxOffset: int64)
    requires maxOffset > 0
    ensures reading >= 0 <==> forall rt: Timestamp :: Trusted(rt, reading, maxOffset) ==> rt.wall - reading <= maxOffset
    ensures rt.wall >= 0 ==>
      ((Trusted(rt, reading, maxOffset) <==> rt.wall - reading <= maxOffset) <==> rt.wall - reading <= MAX_INT64)
  {
    if reading < 0 {
      TrustedWraps(reading, maxOffset);
    }
    forall rt: Timestamp | reading >= 0 && Trusted(rt, reading, maxOffset) ensures rt.wall - reading <= maxOffset {
      WrappedDifference(rt.wall, reading);
    }
    if rt.wall >= 0 { WrappedDifference(rt.wall, reading); }
  }

  /** Without an offset nothing is refused. */
  lemma TrustedAlways(rt: Timestamp, reading: int64, maxOffset: int64)
    ensures maxOffset <= 0 ==> Trusted(rt, reading, maxOffset)
  {
  }

  /** A 64-bit difference that does not fit comes out with the wrong sign. */
  lemma WrappedDifference(a: int64, b: int64)
    ensures ToInt64(a - b) == if a - b > MAX_INT64 then a - b - TWO64 else if a - b < -TWO63 then a - b + TWO64 else a - b
  {
  }

  /** Before 1970, at every reading, the farthest future is trusted. */
  lemma TrustedWraps(reading: int64, maxOffset: int64)
    requires maxOffset > 0 && reading < 0
    ensures Trusted(Timestamp(MAX_INT64, 0), reading, maxOffset) && MAX_INT64 - reading > maxOffset
  {
    WrappedDifference(MAX_INT64, reading);
  }

  /** What UpdateAndCheckMaxOffset feeds to Update. */
  function Trusting(rt: Timestamp, reading: int64): Timestamp {
    if reading > rt.wall then Timestamp(reading, 0) else rt
  }

  /** Among proper timestamps, that is the least one not before the remote timestamp nor before the
      reading. */
  lemma TrustingIsLeast(rt: Timestamp, reading: int64, s: Timestamp)
    requires Proper(rt) && Proper(s) && LessEq(rt, s) && s.wall >= reading
    ensures var r := Trusting(rt, reading); Proper(r) && LessEq(rt, r) && r.wall >= reading && LessEq(r, s)
  {
  }

  /** The clock's mutable state, and whether log.Fatalf has ended the process. */
  datatype State = State(ts: Timestamp, bound: int64, halted: bool)

  function Settled(ts: Timestamp, bound: int64): State {
    State(ts, bound, !WithinBound(ts, bound))
  }

  class Clock {
    const maxOffset: int64
    var lastPhysicalTime: int64
    var monotonicityErrorsCount: nat
    var forwardJumpCheckEnabled: bool
    var timestamp: Timestamp
    var wallTimeUpperBound: int64
    var halted: bool

    function Abstract(): State
      reads this
    {
      State(timestamp, wallTimeUpperBound, halted)
    }

    constructor (maxOffset: int64)
      ensures Abstract() == State(Timestamp(0, 0), 0, false) && this.maxOffset == maxOffset && lastPhysicalTime == 0
    {
      this.maxOffset := maxOffset;
      lastPhysicalTime, monotonicityErrorsCount, forwardJumpCheckEnabled := 0, 0, false;
      timestamp, wallTimeUpperBound, halted := Timestamp(0, 0), 0, false;
    }

    /** The process dies on a jump of at least half the offset, if that is checked. */
    predicate Jumps(newTime: int64)
      reads this
    {
      var interval: int := ToInt64(lastPhysicalTime - newTime);
      lastPhysicalTime != 0 && forwardJumpCheckEnabled && Quo(maxOffset, 2) <= ToInt64(-interval)
    }

    /** While differences fit 64 bits, that is a step forward of at least half the offset since the
        last reading, truncated to whole nanoseconds. */
    lemma JumpsMeans(newTime: int64)
      requires -MAX_INT64 <= newTime - lastPhysicalTime <= MAX_INT64 && maxOffset >= 0
      ensures Jumps(newTime) <==>
        forwardJumpCheckEnabled && lastPhysicalTime != 0 && 2 * (newTime - lastPhysicalTime) >= maxOffset - maxOffset % 2
    {
    }

    /** getPhysicalClockAndCheck, with the reading as a parameter. `others` are the writes of other
        goroutines before each compare-and-swap and each load. A swap lost to an earlier time is
        tried again; lost to a later one it is given up. */
    method GetPhysicalClockAndCheck(newTime: int64, others: seq<Option<int64>>)
      requires !halted
      modifies this`lastPhysicalTime, this`monotonicityErrorsCount, this`halted
      ensures lastPhysicalTime == newTime || (lastPhysicalTime > newTime && Some(lastPhysicalTime) in others)
      ensures halted == old(Jumps(newTime))
      ensures monotonicityErrorsCount == old(monotonicityErrorsCount) +
        if old(lastPhysicalTime) != 0 && ToInt64(old(lastPhysicalTime) - newTime) > Quo(maxOffset, 10) then 1 else 0
    {
      var oldTime := lastPhysicalTime;
      var lastPhysTime := oldTime;
      var rest := others;
      var done := false;
      while !done
        invariant done ==> lastPhysicalTime == newTime || (lastPhysicalTime > newTime && Some(lastPhysicalTime) in others)
        invariant lastPhysTime == lastPhysicalTime && forall o :: o in rest ==> o in others
        invariant !halted && monotonicityErrorsCount == old(monotonicityErrorsCount)
        decreases |rest|, !done
      {
        rest := Interfere(rest);
        if lastPhysicalTime == lastPhysTime {
          lastPhysicalTime := newTime;
        }
        rest := Interfere(rest);
        lastPhysTime := lastPhysicalTime;
        done := lastPhysTime >= newTime;
      }
      if oldTime == 0 {
        return;
      }
      var interval: int := ToInt64(oldTime - newTime);
      if interval > Quo(maxOffset, 10) {
        monotonicityErrorsCount := monotonicityErrorsCount + 1;
      }
      if forwardJumpCheckEnabled && Quo(maxOffset, 2) <= ToInt64(-interval) {
        halted := true;
      }
    }

    /** The next of the other goroutines' writes, if they write. */
    method Interfere(others: seq<Option<int64>>) returns (rest: seq<Option<int64>>)
      modifies this`lastPhysicalTime
      ensures others == [] ==> rest == [] && lastPhysicalTime == old(lastPhysicalTime)
      ensures others != [] ==> rest == others[1..]
      ensures others != [] ==> lastPhysicalTime == if others[0].Some? then others[0].value else old(lastPhysicalTime)
    {
      rest := others;
      if others != [] {
        if others[0].Some? {
          lastPhysicalTime := others[0].value;
        }
        rest := others[1..];
      }
    }

    method EnforceWallTimeWithinBound()
      requires !halted
      modifies this`halted
      ensures halted == !WithinBound(timestamp, wallTimeUpperBound)
    {
      if wallTimeUpperBound != 0 && timestamp.wall > wallTimeUpperBound {
        halted := true;
      }
    }

    /** Now; nothing is returned by a process that halts. */
    method Now(reading: int64) returns (r: Option<Timestamp>)
      requires !halted
      modifies this
      ensures old(Jumps(reading)) ==> r == None && Abstract() == old(Abstract()).(halted := true)
      ensures !old(Jumps(reading)) ==> Abstract() == Settled(Tick(old(timestamp), reading), old(wallTimeUpperBound))
      ensures r == if halted then None else Some(timestamp)
      ensures lastPhysicalTime == reading && forwardJumpCheckEnabled == old(forwardJumpCheckEnabled)
    {
      GetPhysicalClockAndCheck(reading, []);
      if halted {
        return None;
      }
      if timestamp.wall >= reading {
        timestamp := Timestamp(timestamp.wall, ToInt32(timestamp.logical + 1));
      } else {
        timestamp := Timestamp(reading, 0);
      }
      EnforceWallTimeWithinBound();
      return if halted then None else Some(timestamp);
    }

    method Update(rt: Timestamp)
      requires !halted
      modifies this`timestamp, this`halted
      ensures Abstract() == Settled(Max(old(timestamp), rt), old(wallTimeUpperBound))
    {
      if rt.wall > timestamp.wall {
        timestamp := rt;
      } else if rt.wall == timestamp.wall {
        if rt.logical > timestamp.logical {
          timestamp := Timestamp(timestamp.wall, rt.logical);
        }
      }
      EnforceWallTimeWithinBound();
    }

    /** False is the error of a remote time too far ahead. */
    method UpdateAndCheckMaxOffset(rt: Timestamp, reading: int64) returns (ok: bool)
      requires !halted
      modifies this
      ensures old(Jumps(reading)) ==> !ok && Abstract() == old(Abstract()).(halted := true)
      ensures !old(Jumps(reading)) ==> ok == Trusted(rt, reading, maxOffset)
      ensures !old(Jumps(reading)) && !ok ==> Abstract() == old(Abstract())
      ensures !old(Jumps(reading)) && ok ==>
        Abstract() == Settled(Max(old(timestamp), Trusting(rt, reading)), old(wallTimeUpperBound))
    {
      GetPhysicalClockAndCheck(reading, []);
      if halted {
        return false;
      }
      var offset := ToInt64(rt.wall - reading);
      if maxOffset > 0 && offset > maxOffset {
        return false;
      }
      if reading > rt.wall {
        Update(Timestamp(reading, 0));
      } else {
        Update(rt);
      }
      return true;
    }

    /** RefreshHLCUpperBound; persistOk is what persistFn answers. On success the new bound has
        been persisted and is in memory. */
    method RefreshHLCUpperBound(reading: int64, delta: int64, persistOk: bool) returns (r: Option<int64>)
      requires !halted
      modifies this
      ensures delta < 0 ==> r == None && Abstract() == old(Abstract())
      ensures delta >= 0 && old(Jumps(reading)) ==> r == None && Abstract() == old(Abstract()).(halted := true)
      ensures delta >= 0 && !old(Jumps(reading)) ==>
        var ticked := Settled(Tick(old(timestamp), reading), old(wallTimeUpperBound));
        if ticked.halted || !persistOk then r == None && Abstract() == ticked
        else r == Some(ToInt64(ticked.ts.wall + delta)) && Abstract() == ticked.(bound := ToInt64(ticked.ts.wall + delta))
    {
      if delta < 0 {
        return None;
      }
      var now := Now(reading);
      if now.None? || !persistOk {
        return None;
      }
      wallTimeUpperBound := ToInt64(now.value.wall + delta);
      return Some(wallTimeUpperBound);
    }
  }
}
