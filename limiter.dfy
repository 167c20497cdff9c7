/**
 `AsyncBatchLimiter`: a leaky-bucket rate limiter whose fill rises by the
 admitted amount and drains in proportion to elapsed clock time.  Each
 method updates the object's fields in place and is proved against the
 value-level definitions of module Bucket.  The event loop's clock is an
 explicit `now` argument; the suspension inside `acquire` is abstracted as
 the sequence of attempts the caller goes through.
 */
module Limiter {
  import opened Waiters
  import opened Bucket

  class AsyncBatchLimiter {
    const maxRate: real
    const timePeriod: real
    const ratePerSec: real
    var level: real
    var lastCheck: real
    var waiters: Registry

    function Cfg(): Config
    {
      Config(maxRate, timePeriod, ratePerSec)
    }

    function Snapshot(): State
      reads this
    {
      State(level, lastCheck, waiters)
    }

    ghost predicate Valid()
      reads this
    {
      ConfigOk(Cfg()) && Inv(Snapshot())
    }

    /** `__init__`: an empty bucket, a zero timestamp and no waiters; the period defaults to 60 seconds. */
    constructor (maxRate: real, timePeriod: real := 60.0)
      requires 0.0 < maxRate && 0.0 < timePeriod
      ensures Valid()
      ensures this.maxRate == maxRate && this.timePeriod == timePeriod
      ensures ratePerSec == maxRate / timePeriod
      ensures level == 0.0 && lastCheck == 0.0 && waiters == []
    {
      this.maxRate := maxRate;
      this.timePeriod := timePeriod;
      ratePerSec := maxRate / timePeriod;
      level := 0.0;
      lastCheck := 0.0;
      waiters := [];
    }

    /**
     `_leak`: drip out what has drained since the last check, never going
     below zero, and stamp the check with `now`.
     */
    method Leak(now: real)
      requires Valid() && lastCheck <= now
      modifies this
      ensures Valid()
      ensures Snapshot() == Leaked(Cfg(), old(Snapshot()), now)
      ensures 0.0 <= level <= old(level) && lastCheck == now && waiters == old(waiters)
      ensures old(level) == 0.0 ==> level == 0.0
    {
      if level != 0.0 {
        var elapsed := now - lastCheck;
        var decrement := elapsed * ratePerSec;
        level := if level - decrement > 0.0 then level - decrement else 0.0;
      }
      lastCheck := now;
    }

    /**
     `has_capacity(amount)`: drain, then answer whether `amount` more fits;
     on strict slack, first wake the earliest waiter whose future is not done.
     `amount` defaults to one unit.
     */
    method HasCapacity(now: real, amount: real := 1.0) returns (ok: bool)
      requires Valid() && lastCheck <= now
      modifies this
      ensures Valid()
      ensures (ok, Snapshot()) == Probe(Cfg(), old(Snapshot()), amount, now)
      ensures lastCheck == now
    {
      ghost var before := Snapshot();
      Leak(now);
      var requested := level + amount;
      if requested > maxRate {
        return false;
      }
      if requested == maxRate {
        return true;
      }
      ghost var ws := waiters;
      var i := 0;
      while i < |waiters|
        invariant 0 <= i <= |waiters| == |ws|
        invariant waiters == ws
        invariant forall j :: 0 <= j < i ==> ws[j].fut != Pending
      {
        if waiters[i].fut == Pending {
          waiters := waiters[i := Waiter(waiters[i].task, Resolved)];
          break;
        }
        i := i + 1;
      }
      assert waiters == WakeFirst(ws);
      ok := level + amount <= maxRate;
    }

    /**
     `acquire(amount)` for task `task` (`amount` defaults to one unit): a
     request larger than `maxRate` fails with the capacity-overflow error
     before any state changes.  Otherwise
     the caller probes at each attempt's clock reading; after a refusal it
     registers a fresh future under its task (overwriting its earlier entry
     in place), waits, and cancels the future.  After a successful probe the
     caller's entry is removed and the fill rises by `amount`.  Running out
     of attempts leaves the call suspended.

     The source awaits the value it pops at this point; that raises when the
     entry is missing (admission at the first probe) or its future was
     cancelled (the last wait timed out).  This method removes the entry
     without awaiting it, as the surrounding code evidently intends;
     Bucket.AdmitAsWritten models the line as written.
     */
    method Acquire(task: TaskId, attempts: seq<Attempt>, amount: real := 1.0) returns (r: Outcome)
      requires Valid() && 0.0 < amount && ClockOk(lastCheck, attempts)
      modifies this
      ensures Valid()
      ensures (r, Snapshot()) == AcquireSpec(Cfg(), old(Snapshot()), task, amount, attempts)
      ensures r == CapacityOverflow ==> unchanged(this)
    {
      if amount > maxRate {
        return CapacityOverflow;
      }
      ghost var goal := Retry(Cfg(), Snapshot(), task, amount, attempts);
      assert goal == AcquireSpec(Cfg(), old(Snapshot()), task, amount, attempts);
      var i := 0;
      assert attempts[i..] == attempts;
      while i < |attempts|
        invariant 0 <= i <= |attempts|
        invariant Valid()
        invariant ClockOk(lastCheck, attempts[i..])
        invariant Retry(Cfg(), Snapshot(), task, amount, attempts[i..]) == goal
      {
        RetryAt(Cfg(), Snapshot(), task, amount, attempts, i);
        var ok := HasCapacity(attempts[i].now, amount);
        if ok {
          Charge(task, amount);
          return Admitted;
        }
        Park(task, attempts[i].end);
        i := i + 1;
      }
      assert attempts[i..] == [];
      return Waiting;
    }

    /**
     The statements after the `acquire` loop, as evidently intended: drop
     the caller's entry if it has one, then charge `amount` to the bucket.
     */
    method Charge(task: TaskId, amount: real)
      requires Valid() && 0.0 < amount
      modifies this
      ensures Valid()
      ensures Snapshot() == Bucket.Admit(old(Snapshot()), task, amount)
    {
      waiters := Unregister(waiters, task);
      level := level + amount;
    }

    /**
     One suspension of the `acquire` loop: register a fresh future under
     `task`, wait until it is resolved by a peer or the wait times out, then
     cancel it.
     */
    method Park(task: TaskId, end: WaitEnd)
      requires Valid()
      modifies this
      ensures Valid()
      ensures Snapshot() == Suspend(old(Snapshot()), task, end)
    {
      waiters := Register(waiters, task);
      if end == WokenEarly {
        waiters := Settle(waiters, task, Resolved);
      }
      waiters := Cancel(waiters, task);
    }

    /** `__aenter__`: scoped entry acquires one unit, `acquire`'s default amount. */
    method Enter(task: TaskId, attempts: seq<Attempt>) returns (r: Outcome)
      requires Valid() && ClockOk(lastCheck, attempts)
      modifies this
      ensures Valid()
      ensures (r, Snapshot()) == AcquireSpec(Cfg(), old(Snapshot()), task, 1.0, attempts)
    {
      r := Acquire(task, attempts);
    }

    /** `__aexit__`: scoped exit releases nothing; the bucket drains with time alone. */
    method Exit()
      ensures unchanged(this)
    {
    }
  }
}
