/**
 The leaky bucket as values: the limiter's configuration and mutable state,
 the drain computation, one capacity probe, one suspension of a caller, the
 admission step, and the whole `acquire` loop as a function of the clock
 readings at which it probes.  The class in module Limiter is proved
 against these definitions.
 */
module Bucket {
  import opened Waiters

  /** The fields fixed at construction: `max_rate`, `time_period`, `_rate_per_sec`. */
  datatype Config = Config(maxRate: real, timePeriod: real, ratePerSec: real)

  ghost predicate ConfigOk(c: Config)
  {
    0.0 < c.maxRate && 0.0 < c.timePeriod && 0.0 < c.ratePerSec && c.ratePerSec * c.timePeriod == c.maxRate
  }

  /** The fields that change: `_level`, `_last_check`, `_waiters`. */
  datatype State = State(level: real, lastCheck: real, waiters: Registry)

  ghost predicate Inv(s: State)
  {
    0.0 <= s.level && Distinct(s.waiters)
  }

  /**
   The fill left after `elapsed` seconds of draining at `rate` units per
   second, never below zero (`max(level - elapsed * rate, 0)`, applied only
   when the bucket is not already empty).
   */
  function Drained(level: real, elapsed: real, rate: real): (r: real)
    requires 0.0 <= level && 0.0 <= elapsed && 0.0 <= rate
    ensures 0.0 <= r <= level
  {
    if level != 0.0 then
      var decrement := elapsed * rate;
      if level - decrement > 0.0 then level - decrement else 0.0
    else level
  }

  /** The drained fill is what is left after taking away `elapsed * rate`, or zero when that takes everything. */
  lemma DrainedCases(level: real, elapsed: real, rate: real)
    requires 0.0 <= level && 0.0 <= elapsed && 0.0 <= rate
    ensures var r := Drained(level, elapsed, rate);
            (r == level - elapsed * rate && 0.0 < r) || (r == 0.0 && level <= elapsed * rate)
  {
  }

  /** Draining in two steps drains as much as draining once over the whole interval. */
  lemma DrainedCompose(level: real, e1: real, e2: real, rate: real)
    requires 0.0 <= level && 0.0 <= e1 && 0.0 <= e2 && 0.0 <= rate
    ensures Drained(Drained(level, e1, rate), e2, rate) == Drained(level, e1 + e2, rate)
  {
    var d1, d2 := e1 * rate, e2 * rate;
    NonnegativeProduct(e1, rate);
    NonnegativeProduct(e2, rate);
    assert (e1 + e2) * rate == d1 + d2;
    var mid := Drained(level, e1, rate);
    if level == 0.0 || level - d1 <= 0.0 {
      assert mid == 0.0;
    } else {
      assert mid == level - d1;
      assert mid - d2 == level - (d1 + d2);
    }
  }

  /** Drain amounts are never negative. */
  lemma NonnegativeProduct(x: real, y: real)
    requires 0.0 <= x && 0.0 <= y
    ensures 0.0 <= x * y
  {
  }

  /** A bucket filled to at most `maxRate` is empty once a whole `timePeriod` has passed. */
  lemma DrainedFullPeriod(c: Config, level: real, elapsed: real)
    requires ConfigOk(c)
    requires 0.0 <= level <= c.maxRate && c.timePeriod <= elapsed
    ensures Drained(level, elapsed, c.ratePerSec) == 0.0
  {
    assert c.timePeriod * c.ratePerSec == c.maxRate;
    assert c.timePeriod * c.ratePerSec <= elapsed * c.ratePerSec;
  }

  /** `_leak` with the clock reading `now`. */
  function Leaked(c: Config, s: State, now: real): (r: State)
    requires ConfigOk(c) && Inv(s) && s.lastCheck <= now
    ensures Inv(r)
    ensures r.level <= s.level && r.lastCheck == now && r.waiters == s.waiters
  {
    s.(level := Drained(s.level, now - s.lastCheck, c.ratePerSec), lastCheck := now)
  }

  /** The fill that a probe at `now` compares against `maxRate`. */
  function LevelAt(c: Config, s: State, now: real): real
    requires ConfigOk(c) && Inv(s) && s.lastCheck <= now
  {
    Leaked(c, s, now).level
  }

  /**
   `has_capacity(amount)` at `now`: drain, then refuse when the request would
   overfill the bucket, accept an exact fit, and on strict slack wake the
   first waiter whose future is not done before answering.  The answer is
   the same in all three branches: whether the drained fill plus `amount`
   fits.  Only the first pending waiter can change, only on strict slack, and
   only from pending to resolved.
   */
  function Probe(c: Config, s: State, amount: real, now: real): (r: (bool, State))
    requires ConfigOk(c) && Inv(s) && s.lastCheck <= now
    ensures Inv(r.1)
    ensures r.0 <==> LevelAt(c, s, now) + amount <= c.maxRate
    ensures r.1.level == LevelAt(c, s, now) && r.1.lastCheck == now
    ensures Keys(r.1.waiters) == Keys(s.waiters)
  {
    var s1 := Leaked(c, s, now);
    var requested := s1.level + amount;
    if requested > c.maxRate then (false, s1)
    else if requested == c.maxRate then (true, s1)
    else
      var s2 := s1.(waiters := WakeFirst(s1.waiters));
      assert Distinct(s2.waiters) by {
        assert forall i :: 0 <= i < |s2.waiters| ==> s2.waiters[i].task == Keys(s1.waiters)[i];
      }
      (s2.level + amount <= c.maxRate, s2)
  }

  /**
   The only waiter a probe changes is the first one whose future is not
   done, only on strict slack, and only from pending to resolved; on strict
   slack that waiter is always resolved.
   */
  lemma ProbeWakesFirstOnly(c: Config, s: State, amount: real, now: real)
    requires ConfigOk(c) && Inv(s) && s.lastCheck <= now
    ensures var r := Probe(c, s, amount, now).1;
            forall i :: 0 <= i < |s.waiters| && r.waiters[i] != s.waiters[i] ==>
              LevelAt(c, s, now) + amount < c.maxRate && FirstPending(s.waiters) == Some(i) &&
              r.waiters[i] == Waiter(s.waiters[i].task, Resolved)
    ensures var r := Probe(c, s, amount, now).1;
            LevelAt(c, s, now) + amount < c.maxRate && FirstPending(s.waiters).Some? ==>
              r.waiters[FirstPending(s.waiters).value].fut == Resolved
  {
  }

  /** A probe resolves one future exactly when it finds strict slack and some future is not done. */
  lemma ProbePendingCount(c: Config, s: State, amount: real, now: real)
    requires ConfigOk(c) && Inv(s) && s.lastCheck <= now
    ensures var w := PendingCount(s.waiters);
            PendingCount(Probe(c, s, amount, now).1.waiters) ==
              if LevelAt(c, s, now) + amount < c.maxRate && w > 0 then w - 1 else w
  {
    if LevelAt(c, s, now) + amount < c.maxRate {
      WakeFirstPendingCount(s.waiters);
    }
  }

  /** After a whole idle `timePeriod` the bucket has room for `maxRate` units. */
  lemma ProbeFullAfterIdle(c: Config, s: State, now: real)
    requires ConfigOk(c) && Inv(s) && s.lastCheck <= now
    requires s.level <= c.maxRate && c.timePeriod <= now - s.lastCheck
    ensures Probe(c, s, c.maxRate, now).0
  {
    DrainedFullPeriod(c, s.level, now - s.lastCheck);
  }

  /** How a suspended caller's wait ended: a peer resolved its future, or the wait timed out. */
  datatype WaitEnd = WokenEarly | TimedOut

  /** One turn of the `acquire` loop: the clock reading of its probe and how the wait after a refusal ends. */
  datatype Attempt = Attempt(now: real, end: WaitEnd)

  /** How an `acquire` call stands: refused up front, admitted, or still parked after the last attempt supplied. */
  datatype Outcome = CapacityOverflow | Admitted | Waiting

  /**
   The body of the `acquire` loop after a refused probe: a fresh future is
   registered under the caller's task, the wait ends (a peer may have
   resolved the future), and the future is cancelled, which leaves a resolved
   future resolved.  The entry stays in the registry.
   */
  function Suspend(s: State, t: TaskId, end: WaitEnd): (r: State)
    ensures Inv(s) ==> Inv(r)
    ensures r.level == s.level && r.lastCheck == s.lastCheck
    ensures Keys(r.waiters) == if t in Keys(s.waiters) then Keys(s.waiters) else Keys(s.waiters) + [t]
    ensures Lookup(r.waiters, t) == Some(if end == WokenEarly then Resolved else Cancelled)
  {
    var registered := Register(s.waiters, t);
    var waited := if end == WokenEarly then Settle(registered, t, Resolved) else registered;
    assert Distinct(registered) ==> Distinct(waited) by {
      assert forall i :: 0 <= i < |waited| ==> waited[i].task == Keys(registered)[i];
    }
    var cancelled := Cancel(waited, t);
    assert Distinct(waited) ==> Distinct(cancelled) by {
      assert forall i :: 0 <= i < |cancelled| ==> cancelled[i].task == Keys(waited)[i];
    }
    s.(waiters := cancelled)
  }

  /** A suspension touches only the caller's own entry. */
  lemma SuspendPeers(s: State, t: TaskId, end: WaitEnd, u: TaskId)
    requires u != t
    ensures Lookup(Suspend(s, t, end).waiters, u) == Lookup(s.waiters, u)
  {
  }

  /**
   Admission after a successful probe, as evidently intended: the caller's
   own entry is removed if it has one (absence is tolerated), and the fill
   rises by `amount`.
   */
  function Admit(s: State, t: TaskId, amount: real): (r: State)
    requires Inv(s) && 0.0 <= amount
    ensures Inv(r)
    ensures r.level == s.level + amount && r.lastCheck == s.lastCheck
    ensures Keys(r.waiters) == RemoveKey(Keys(s.waiters), t)
    ensures Lookup(r.waiters, t) == None
  {
    s.(waiters := Unregister(s.waiters, t), level := s.level + amount)
  }

  /** Admission removes only the caller's own entry. */
  lemma AdmitPeers(s: State, t: TaskId, amount: real, u: TaskId)
    requires Inv(s) && 0.0 <= amount && u != t
    ensures Lookup(Admit(s, t, amount).waiters, u) == Lookup(s.waiters, u)
  {
  }

  /** The clock readings of successive attempts never run backwards, starting from `from`. */
  ghost predicate ClockOk(from: real, attempts: seq<Attempt>)
  {
    (forall i :: 0 <= i < |attempts| ==> from <= attempts[i].now) &&
    (forall i, j :: 0 <= i < j < |attempts| ==> attempts[i].now <= attempts[j].now)
  }

  /** After the first attempt, the rest are well ordered from its clock reading. */
  lemma ClockOkTail(from: real, attempts: seq<Attempt>)
    requires ClockOk(from, attempts) && 0 < |attempts|
    ensures ClockOk(attempts[0].now, attempts[1..])
  {
  }

  lemma {:induction false} RemoveKeyAppend(ks: seq<TaskId>, t: TaskId)
    ensures RemoveKey(ks + [t], t) == RemoveKey(ks, t)
  {
    if ks == [] {
      assert RemoveKey([t], t) == [] + RemoveKey([], t);
    } else {
      assert (ks + [t])[1..] == ks[1..] + [t];
      RemoveKeyAppend(ks[1..], t);
    }
  }

  /** A peer's entry is as it was, or was woken from pending to resolved. */
  ghost predicate AtMostWoken(before: Option<FutState>, after: Option<FutState>)
  {
    after == before || (before == Some(Pending) && after == Some(Resolved))
  }

  /**
   The `acquire` loop of task `t` for `amount`, probing at each attempt's
   clock reading until a probe succeeds.  On admission the fill is between
   `amount` and `maxRate` and the task holds no entry; while still waiting
   the fill has only drained.
   */
  function Retry(c: Config, s: State, t: TaskId, amount: real, attempts: seq<Attempt>): (r: (Outcome, State))
    requires ConfigOk(c) && Inv(s) && 0.0 < amount && ClockOk(s.lastCheck, attempts)
    decreases |attempts|
    ensures Inv(r.1)
    ensures r.0 != CapacityOverflow
    ensures s.lastCheck <= r.1.lastCheck
    ensures r.0 == Admitted ==> amount <= r.1.level <= c.maxRate && Lookup(r.1.waiters, t) == None
    ensures r.0 == Waiting ==> r.1.level <= s.level
  {
    if |attempts| == 0 then (Waiting, s)
    else
      var p := Probe(c, s, amount, attempts[0].now);
      if p.0 then (Admitted, Admit(p.1, t, amount))
      else Retry(c, Suspend(p.1, t, attempts[0].end), t, amount, attempts[1..])
  }

  /**
   The keys after the loop: `t` is gone after admission and added at the
   back (when it had no entry) once the caller has parked; all other keys
   keep their order.
   */
  lemma {:induction false} RetryKeys(c: Config, s: State, t: TaskId, amount: real, attempts: seq<Attempt>)
    requires ConfigOk(c) && Inv(s) && 0.0 < amount && ClockOk(s.lastCheck, attempts)
    decreases |attempts|
    ensures var r := Retry(c, s, t, amount, attempts);
            Keys(r.1.waiters) ==
              if r.0 == Admitted then RemoveKey(Keys(s.waiters), t)
              else if |attempts| == 0 || t in Keys(s.waiters) then Keys(s.waiters)
              else Keys(s.waiters) + [t]
  {
    if |attempts| > 0 {
      var p := Probe(c, s, amount, attempts[0].now);
      if !p.0 {
        var s2 := Suspend(p.1, t, attempts[0].end);
        ClockOkTail(s.lastCheck, attempts);
        RetryKeys(c, s2, t, amount, attempts[1..]);
        assert t in Keys(s2.waiters);
        RemoveKeyAppend(Keys(s.waiters), t);
      }
    }
  }

  /** A caller still parked after its last attempt was stamped at that attempt's clock reading. */
  lemma RetryParkedClock(c: Config, s: State, t: TaskId, amount: real, attempts: seq<Attempt>)
    requires ConfigOk(c) && Inv(s) && 0.0 < amount && ClockOk(s.lastCheck, attempts)
    requires |attempts| > 0 && Retry(c, s, t, amount, attempts).0 == Waiting
    ensures Retry(c, s, t, amount, attempts).1.lastCheck == attempts[|attempts| - 1].now
  {
    assert attempts[0..] == attempts;
    RetryParkedClockFrom(c, s, t, amount, attempts, 0);
  }

  /** The same, for the loop started at attempt `i`. */
  lemma {:induction false} RetryParkedClockFrom(c: Config, s: State, t: TaskId, amount: real, attempts: seq<Attempt>, i: nat)
    requires ConfigOk(c) && Inv(s) && 0.0 < amount && i < |attempts| && ClockOk(s.lastCheck, attempts[i..])
    requires Retry(c, s, t, amount, attempts[i..]).0 == Waiting
    decreases |attempts| - i
    ensures Retry(c, s, t, amount, attempts[i..]).1.lastCheck == attempts[|attempts| - 1].now
  {
    RetryAt(c, s, t, amount, attempts, i);
    var p := Probe(c, s, amount, attempts[i].now);
    var s2 := Suspend(p.1, t, attempts[i].end);
    if i + 1 == |attempts| {
      assert attempts[i + 1..] == [];
    } else {
      RetryParkedClockFrom(c, s2, t, amount, attempts, i + 1);
    }
  }

  /** A caller still parked after its last attempt holds an entry whose future is done. */
  lemma {:induction false} RetryParkedEntry(c: Config, s: State, t: TaskId, amount: real, attempts: seq<Attempt>)
    requires ConfigOk(c) && Inv(s) && 0.0 < amount && ClockOk(s.lastCheck, attempts)
    requires |attempts| > 0 && Retry(c, s, t, amount, attempts).0 == Waiting
    decreases |attempts|
    ensures var r := Retry(c, s, t, amount, attempts).1;
            Lookup(r.waiters, t) == Some(Resolved) || Lookup(r.waiters, t) == Some(Cancelled)
  {
    var p := Probe(c, s, amount, attempts[0].now);
    var s2 := Suspend(p.1, t, attempts[0].end);
    var rest := attempts[1..];
    ClockOkTail(s.lastCheck, attempts);
    assert Retry(c, s, t, amount, attempts) == Retry(c, s2, t, amount, rest);
    if |rest| > 0 {
      RetryParkedEntry(c, s2, t, amount, rest);
    }
  }

  /** The loop of one caller at most wakes its peers: it never removes, adds or cancels their entries. */
  lemma {:induction false} RetryPeers(c: Config, s: State, t: TaskId, amount: real, attempts: seq<Attempt>, u: TaskId)
    requires ConfigOk(c) && Inv(s) && 0.0 < amount && ClockOk(s.lastCheck, attempts)
    requires u != t
    decreases |attempts|
    ensures AtMostWoken(Lookup(s.waiters, u), Lookup(Retry(c, s, t, amount, attempts).1.waiters, u))
  {
    if |attempts| > 0 {
      var p := Probe(c, s, amount, attempts[0].now);
      IndexOfByKeys(s.waiters, p.1.waiters, u);
      if !p.0 {
        var s2 := Suspend(p.1, t, attempts[0].end);
        SuspendPeers(p.1, t, attempts[0].end, u);
        ClockOkTail(s.lastCheck, attempts);
        RetryPeers(c, s2, t, amount, attempts[1..], u);
      } else {
        AdmitPeers(p.1, t, amount, u);
      }
    }
  }

  /** Turn `i` of the loop: probe at attempt `i`, then admit, or suspend and go on with the attempts after it. */
  lemma RetryAt(c: Config, s: State, t: TaskId, amount: real, attempts: seq<Attempt>, i: nat)
    requires ConfigOk(c) && Inv(s) && 0.0 < amount && i < |attempts| && ClockOk(s.lastCheck, attempts[i..])
    ensures var p := Probe(c, s, amount, attempts[i].now);
            var s2 := Suspend(p.1, t, attempts[i].end);
            Inv(s2) && ClockOk(s2.lastCheck, attempts[i + 1..]) &&
            Retry(c, s, t, amount, attempts[i..]) ==
              if p.0 then (Admitted, Admit(p.1, t, amount)) else Retry(c, s2, t, amount, attempts[i + 1..])
  {
    var rest := attempts[i..];
    assert rest[0] == attempts[i];
    assert rest[1..] == attempts[i + 1..];
    var p := Probe(c, s, amount, attempts[i].now);
    var s2 := Suspend(p.1, t, attempts[i].end);
    assert s2.lastCheck == attempts[i].now;
    ClockOkTail(s.lastCheck, rest);
  }

  /**
   `acquire(amount)` of task `t`: a request larger than `maxRate` fails before
   anything changes; any other request runs the probe loop.
   */
  function AcquireSpec(c: Config, s: State, t: TaskId, amount: real, attempts: seq<Attempt>): (r: (Outcome, State))
    requires ConfigOk(c) && Inv(s) && 0.0 < amount && ClockOk(s.lastCheck, attempts)
    ensures Inv(r.1)
    ensures r.0 == CapacityOverflow <==> amount > c.maxRate
    ensures r.0 == CapacityOverflow ==> r.1 == s
    ensures r.0 == Admitted ==> r.1.level <= c.maxRate && Lookup(r.1.waiters, t) == None
  {
    if amount > c.maxRate then (CapacityOverflow, s)
    else Retry(c, s, t, amount, attempts)
  }

  /**
   With nothing else happening, the loop admits the caller by its last
   attempt whenever the bucket, drained up to that attempt's clock reading,
   has room for `amount`.
   */
  lemma {:induction false} RetryAdmitsOnceDrained(c: Config, s: State, t: TaskId, amount: real, attempts: seq<Attempt>)
    requires ConfigOk(c) && Inv(s) && 0.0 < amount && ClockOk(s.lastCheck, attempts)
    requires |attempts| > 0
    requires LevelAt(c, s, attempts[|attempts| - 1].now) + amount <= c.maxRate
    ensures Retry(c, s, t, amount, attempts).0 == Admitted
    decreases |attempts|
  {
    var p := Probe(c, s, amount, attempts[0].now);
    if p.0 {
      assert Retry(c, s, t, amount, attempts).0 == Admitted;
    } else {
      var last := attempts[|attempts| - 1].now;
      assert |attempts| > 1;
      var s2 := Suspend(p.1, t, attempts[0].end);
      var rest := attempts[1..];
      ClockOkTail(s.lastCheck, attempts);
      assert ClockOk(s2.lastCheck, rest);
      assert Retry(c, s, t, amount, attempts) == Retry(c, s2, t, amount, rest);
      SuspendedLevelAt(c, s, amount, t, attempts[0].end, attempts[0].now, last);
      assert rest[|rest| - 1].now == last;
      RetryAdmitsOnceDrained(c, s2, t, amount, rest);
    }
  }

  /** A refused probe followed by a suspension drains exactly as if nothing had happened in between. */
  lemma SuspendedLevelAt(c: Config, s: State, amount: real, t: TaskId, end: WaitEnd, now: real, later: real)
    requires ConfigOk(c) && Inv(s) && s.lastCheck <= now <= later
    ensures var s2 := Suspend(Probe(c, s, amount, now).1, t, end);
            Inv(s2) && s2.lastCheck == now && LevelAt(c, s2, later) == LevelAt(c, s, later)
  {
    var p := Probe(c, s, amount, now).1;
    ProbeLevelAt(c, s, amount, now, later);
    SuspendLevelAt(c, p, t, end, later);
  }

  /** A probe at `now` does not change the fill seen at any later reading. */
  lemma ProbeLevelAt(c: Config, s: State, amount: real, now: real, later: real)
    requires ConfigOk(c) && Inv(s) && s.lastCheck <= now <= later
    ensures LevelAt(c, Probe(c, s, amount, now).1, later) == LevelAt(c, s, later)
  {
    var p := Probe(c, s, amount, now).1;
    assert p.level == LevelAt(c, s, now) && p.lastCheck == now;
    LevelAtSplit(c, s, now, later);
  }

  /** A suspension keeps the fill and the drain time, so the fill seen later. */
  lemma SuspendLevelAt(c: Config, s: State, t: TaskId, end: WaitEnd, later: real)
    requires ConfigOk(c) && Inv(s) && s.lastCheck <= later
    ensures Inv(Suspend(s, t, end)) && LevelAt(c, Suspend(s, t, end), later) == LevelAt(c, s, later)
  {
    LevelAtSameDrain(c, Suspend(s, t, end), s, later);
  }

  /** The fill seen at `later` depends only on the fill and the time of the last drain. */
  lemma LevelAtSameDrain(c: Config, a: State, b: State, later: real)
    requires ConfigOk(c) && Inv(a) && Inv(b) && a.lastCheck <= later
    requires a.level == b.level && a.lastCheck == b.lastCheck
    ensures LevelAt(c, a, later) == LevelAt(c, b, later)
  {
  }

  /** Draining up to `later` passes through the fill drained up to `now`. */
  lemma LevelAtSplit(c: Config, s: State, now: real, later: real)
    requires ConfigOk(c) && Inv(s) && s.lastCheck <= now <= later
    ensures LevelAt(c, s, later) == Drained(LevelAt(c, s, now), later - now, c.ratePerSec)
  {
    DrainedCompose(s.level, now - s.lastCheck, later - now, c.ratePerSec);
    assert (now - s.lastCheck) + (later - now) == later - s.lastCheck;
  }

  /**
   No caller that asks for at most `maxRate` waits longer than one
   `timePeriod` in the sequential model: an attempt a whole period after
   the last drain is admitted.
   */
  lemma AdmittedWithinPeriod(c: Config, s: State, t: TaskId, amount: real, attempts: seq<Attempt>)
    requires ConfigOk(c) && Inv(s) && 0.0 < amount <= c.maxRate && ClockOk(s.lastCheck, attempts)
    requires s.level <= c.maxRate
    requires |attempts| > 0 && c.timePeriod <= attempts[|attempts| - 1].now - s.lastCheck
    ensures AcquireSpec(c, s, t, amount, attempts).0 == Admitted
  {
    DrainedFullPeriod(c, s.level, attempts[|attempts| - 1].now - s.lastCheck);
    RetryAdmitsOnceDrained(c, s, t, amount, attempts);
  }

  /**
   Back-to-back admissions at one clock reading add up exactly, and a request
   that fills the bucket to exactly `maxRate` is admitted.
   */
  lemma AdmittedWithoutDelay(c: Config, s: State, t: TaskId, amount: real, attempts: seq<Attempt>)
    requires ConfigOk(c) && Inv(s) && 0.0 < amount && ClockOk(s.lastCheck, attempts)
    requires |attempts| > 0 && attempts[0].now == s.lastCheck
    requires s.level + amount <= c.maxRate
    ensures AcquireSpec(c, s, t, amount, attempts).0 == Admitted
    ensures AcquireSpec(c, s, t, amount, attempts).1.level == s.level + amount
  {
    assert (attempts[0].now - s.lastCheck) * c.ratePerSec == 0.0;
  }

  /** What awaiting the value of `self._waiters.pop(task, None)` does with what was popped. */
  datatype AwaitEnd = Returned | RaisesTypeError | RaisesCancelledError | Blocks

  function AwaitPopped(popped: Option<FutState>): (e: AwaitEnd)
    ensures e == Returned <==> popped == Some(Resolved)
  {
    match popped
    case None => RaisesTypeError          // `await None`
    case Some(Cancelled) => RaisesCancelledError
    case Some(Resolved) => Returned
    case Some(Pending) => Blocks
  }

  /**
   Admission as the source writes it: the entry is popped and its value
   awaited before the fill is raised, so an exception leaves the fill as it
   was.
   */
  function AdmitAsWritten(s: State, t: TaskId, amount: real): (r: (AwaitEnd, State))
    requires Inv(s) && 0.0 <= amount
    ensures r.0 == Returned <==> Lookup(s.waiters, t) == Some(Resolved)
    ensures r.1.level == if r.0 == Returned then s.level + amount else s.level
    ensures r.1.waiters == Unregister(s.waiters, t)
  {
    var popped := s.(waiters := Unregister(s.waiters, t));
    var e := AwaitPopped(Lookup(s.waiters, t));
    if e == Returned then (e, popped.(level := s.level + amount)) else (e, popped)
  }

  /**
   A caller admitted at its first probe never registered a future, so the
   source awaits `None`: the call raises instead of returning and the fill
   is not raised, while the intended admission charges the request.
   */
  lemma FirstProbeAdmissionRaises(c: Config, s: State, t: TaskId, amount: real, attempts: seq<Attempt>)
    requires ConfigOk(c) && Inv(s) && 0.0 < amount && ClockOk(s.lastCheck, attempts)
    requires t !in Keys(s.waiters) && |attempts| > 0
    requires Probe(c, s, amount, attempts[0].now).0
    ensures var p := Probe(c, s, amount, attempts[0].now).1;
            AdmitAsWritten(p, t, amount) == (RaisesTypeError, p) &&
            Retry(c, s, t, amount, attempts) == (Admitted, Admit(p, t, amount)) &&
            Admit(p, t, amount).level == p.level + amount
  {
    var p := Probe(c, s, amount, attempts[0].now).1;
    assert Lookup(p.waiters, t) == None by { IndexOfByKeys(s.waiters, p.waiters, t); }
    assert Unregister(p.waiters, t) == p.waiters;
  }

  /**
   The smallest instance: on a fresh limiter of 500 units per 60 seconds the
   first `acquire(1)` raises in the source and is admitted as intended.
   */
  lemma FreshLimiterFirstAcquire()
    ensures var c := Config(500.0, 60.0, 500.0 / 60.0);
            var s := State(0.0, 0.0, []);
            var attempts := [Attempt(0.0, TimedOut)];
            AdmitAsWritten(Probe(c, s, 1.0, 0.0).1, 7, 1.0).0 == RaisesTypeError &&
            AcquireSpec(c, s, 7, 1.0, attempts) == (Admitted, State(1.0, 0.0, []))
  {
    var c := Config(500.0, 60.0, 500.0 / 60.0);
    var s := State(0.0, 0.0, []);
    FirstProbeAdmissionRaises(c, s, 7, 1.0, [Attempt(0.0, TimedOut)]);
  }

  /** A caller whose last wait timed out awaits a cancelled future: the source raises there too. */
  lemma TimedOutLastWaitRaises(s: State, t: TaskId, amount: real)
    requires Inv(s) && 0.0 <= amount
    requires Lookup(s.waiters, t) == Some(Cancelled)
    ensures AdmitAsWritten(s, t, amount).0 == RaisesCancelledError
    ensures AdmitAsWritten(s, t, amount).1.level == s.level
    ensures Admit(s, t, amount).level == s.level + amount
  {
  }

  /** A probe leaves an entry whose future is already done as it was. */
  lemma ProbeKeepsDone(c: Config, s: State, amount: real, now: real, t: TaskId)
    requires ConfigOk(c) && Inv(s) && s.lastCheck <= now
    requires Lookup(s.waiters, t).Some? && Lookup(s.waiters, t) != Some(Pending)
    ensures Lookup(Probe(c, s, amount, now).1.waiters, t) == Lookup(s.waiters, t)
  {
    var p := Probe(c, s, amount, now).1;
    assert p.waiters == s.waiters || p.waiters == WakeFirst(s.waiters);
    WakeFirstKeepsDone(s.waiters, t);
  }

  /**
   The cancelled entry comes from the loop itself: after a wait that timed
   out, a successful probe at any later clock reading leaves the caller's
   future cancelled, so the as-written line raises there.
   */
  lemma TimedOutThenAdmittedRaises(c: Config, s: State, t: TaskId, amount: real, now: real)
    requires ConfigOk(c) && Inv(s) && 0.0 < amount && s.lastCheck <= now
    requires Probe(c, Suspend(s, t, TimedOut), amount, now).0
    ensures var p := Probe(c, Suspend(s, t, TimedOut), amount, now).1;
            Lookup(p.waiters, t) == Some(Cancelled) &&
            AdmitAsWritten(p, t, amount).0 == RaisesCancelledError &&
            AdmitAsWritten(p, t, amount).1.level == p.level
  {
    var s2 := Suspend(s, t, TimedOut);
    ProbeKeepsDone(c, s2, amount, now, t);
    TimedOutLastWaitRaises(Probe(c, s2, amount, now).1, t, amount);
  }
}
