/** The `BatchingScheduler` class: the current rate, a timer that is armed
    or not, and the drift-correcting tick that issues the task. The clock
    (`Date.now()`) is read by the caller and passed in; the timer is the
    pending delay it was armed with; each invocation of the task is counted
    in a ghost counter. */
module Scheduling {
  import opened Constants
  import opened Errors
  import opened Drift

  /** `checkRate`: a rate is accepted exactly when it lies in
      [MIN_RATE_MS, MAX_RATE_MS]; a rejected rate is reported with its value. */
  function CheckRate(value: real): (r: Outcome)
    ensures r == Pass <==> MIN_RATE_MS <= value <= MAX_RATE_MS
    ensures r != Pass ==> r == Fail(RateOutOfRange(value))
    ensures r == Pass ==> value > 0.0
  {
    if value < MIN_RATE_MS || value > MAX_RATE_MS then Fail(RateOutOfRange(value)) else Pass
  }

  /** `timerId`: null, or a handle for a timeout pending with `delay`. */
  datatype Timer = Unarmed | Armed(delay: real)

  class BatchingScheduler {
    var rate: real
    var timer: Timer
    var lastTick: real
    /** Invocations of the task issued so far. */
    ghost var issued: nat
    /** One entry per tick: how many invocations it issued, at which interval. */
    ghost var ledger: seq<Batch>
    /** The value `lastTick` was initialised with. */
    ghost const origin: real

    /** The rate is always an accepted one, and `lastTick` has moved from
        where it started by exactly the whole intervals the ticks paid out. */
    ghost predicate Valid()
      reads this
    {
      CheckRate(rate) == Pass
      && (timer.Armed? ==> timer.delay >= 0.0)
      && PositiveIntervals(ledger)
      && issued == Issued(ledger)
      && lastTick == origin + Consumed(ledger)
    }

    /** The state after one tick at clock readings `now1` (before the
        invocations) and `now2` (after them), at the current rate: `lastTick`
        and the invocations issued move as one `Step` says, so the lemmas
        about `Replay` apply to successive ticks of the object. */
    twostate predicate TickedAt(now1: real, now2: real)
      reads this
    {
      rate > 0.0 &&
      var i := Interval(rate);
      var n := Owed(now1 - old(lastTick), i);
      && Progress(lastTick, issued) == Step(Progress(old(lastTick), old(issued)), i, now1)
      && issued == old(issued) + n
      && lastTick == Advance(old(lastTick), i, now1)
      && timer == Armed(NextDelay(i, lastTick, now2))
      && ledger == old(ledger) + [Batch(n, i)]
    }

    /** The constructor once `checkRate` has accepted `initialRate`; `now`
        is the clock reading that initialises `lastTick`. */
    constructor (initialRate: real, now: real)
      requires CheckRate(initialRate) == Pass
      ensures Valid()
      ensures rate == initialRate && timer == Unarmed && lastTick == now
      ensures issued == 0 && ledger == []
    {
      rate := initialRate;
      timer := Unarmed;
      lastTick := now;
      issued := 0;
      ledger := [];
      origin := now;
    }

    /** `new BatchingScheduler(task, initialRate)`: fails with no object when
        the rate is out of range, and otherwise gives a stopped scheduler. */
    static method Create(now: real, initialRate: real := DEFAULT_RATE) returns (r: Result<BatchingScheduler>)
      ensures r.Failure? <==> CheckRate(initialRate) != Pass
      ensures r.Failure? ==> r.error == RateOutOfRange(initialRate)
      ensures r.Success? ==> fresh(r.value) && r.value.Valid()
      ensures r.Success? ==> r.value.rate == initialRate && r.value.timer == Unarmed
      ensures r.Success? ==> r.value.lastTick == now && r.value.issued == 0
    {
      var check := CheckRate(initialRate);
      if check.Fail? {
        return Failure(check.error);
      }
      var s := new BatchingScheduler(initialRate, now);
      r := Success(s);
    }

    /** `loop`: one tick. Issues every invocation owed since `lastTick`,
        moves `lastTick` by exactly that many intervals, and re-arms the
        timer for when the next invocation falls due. */
    method Loop(now1: real, now2: real)
      requires Valid()
      modifies this
      ensures Valid()
      ensures rate == old(rate) && lastTick >= old(lastTick)
      ensures now1 >= old(lastTick) ==> 0.0 <= now1 - lastTick < Interval(rate)
      ensures timer.Armed? && timer.delay >= 0.0
      ensures now2 >= lastTick ==> timer.delay <= Interval(rate)
      ensures TickedAt(now1, now2)
    {
      var now := now1;
      var elapsed := now - lastTick;
      var expectedInterval := Interval(rate);
      var taskCount := TaskCount(elapsed, expectedInterval);
      ghost var i := expectedInterval;
      ghost var n := Owed(elapsed, i);
      TickFromTaskCount(lastTick, i, now, taskCount);

      var k := 0;
      while k < taskCount
        invariant 0 <= k <= n
        invariant issued == old(issued) + k
        invariant rate == old(rate) && lastTick == old(lastTick) && ledger == old(ledger)
      {
        issued := issued + 1;
        k := k + 1;
      }

      if taskCount > 0 {
        lastTick := lastTick + taskCount as real * expectedInterval;
      }
      assert lastTick == Advance(old(lastTick), i, now);

      var nextDelay := Max(0.0, expectedInterval - (now2 - lastTick));
      timer := Armed(nextDelay);

      ghost var before := ledger;
      ledger := before + [Batch(n, i)];
      assert issued == Issued(ledger) by {
        IssuedAppend(before, Batch(n, i));
      }
      assert lastTick == origin + Consumed(ledger) by {
        ConsumedAppend(before, Batch(n, i));
      }
    }

    /** `start`: a no-op while the timer is armed; otherwise one tick from
        the `lastTick` left by earlier ticks, which leaves the timer armed. */
    method Start(now1: real, now2: real)
      requires Valid()
      modifies this
      ensures Valid()
      ensures rate == old(rate) && timer.Armed?
      ensures old(timer).Armed? ==> unchanged(this)
      ensures old(timer) == Unarmed ==> TickedAt(now1, now2)
    {
      if timer == Unarmed {
        Loop(now1, now2);
      }
    }

    /** `stop`: cancels the timer if there is one; nothing else changes. */
    method Stop()
      requires Valid()
      modifies this
      ensures Valid()
      ensures timer == Unarmed
      ensures old(timer) == Unarmed ==> unchanged(this)
      ensures rate == old(rate) && lastTick == old(lastTick)
      ensures issued == old(issued) && ledger == old(ledger)
    {
      if timer != Unarmed {
        timer := Unarmed;
      }
    }

    /** `setRate`. A rejected rate changes nothing; the current rate changes
        nothing. A new rate is stored first; then, with a timer armed, the
        timer is cancelled and a tick at the new rate re-arms it, while with
        no timer `close()` is called on null and the call fails with the new
        rate already stored. */
    method SetRate(newRate: real, now1: real, now2: real) returns (r: Outcome)
      requires Valid()
      modifies this
      ensures Valid()
      ensures CheckRate(newRate) != Pass ==> r == Fail(RateOutOfRange(newRate)) && unchanged(this)
      ensures CheckRate(newRate) == Pass && newRate == old(rate) ==> r == Pass && unchanged(this)
      ensures CheckRate(newRate) == Pass && newRate != old(rate) && old(timer) == Unarmed ==>
        r == Fail(NullTimer) && rate == newRate && timer == Unarmed
        && lastTick == old(lastTick) && issued == old(issued) && ledger == old(ledger)
      ensures CheckRate(newRate) == Pass && newRate != old(rate) && old(timer).Armed? ==>
        r == Pass && rate == newRate && TickedAt(now1, now2)
    {
      var check := CheckRate(newRate);
      if check.Fail? {
        return check;
      }
      if rate != newRate {
        rate := newRate;
        if timer == Unarmed {
          return Fail(NullTimer);
        }
        timer := Unarmed;
        Loop(now1, now2);
      }
      r := Pass;
    }
  }
}
