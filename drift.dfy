/** The arithmetic of one tick of the scheduler's `loop`, and what repeated
    ticks add up to. Time is in milliseconds, as exact reals. */
module Drift {
  import opened Constants

  /** `expectedInterval`: the ideal gap between two task invocations at `rate`
      tasks per second. */
  function Interval(rate: real): (i: real)
    requires rate > 0.0
    ensures i > 0.0
    ensures i * rate == BASE_PERIOD_MS
  {
    BASE_PERIOD_MS / rate
  }

  /** `taskCount`: `Math.floor(elapsed / expectedInterval)`, negative when
      the clock reads earlier than `lastTick`. */
  function TaskCount(elapsed: real, interval: real): int
    requires interval > 0.0
  {
    (elapsed / interval).Floor
  }

  /** The invocations a tick issues: `taskCount`, where a count that is not
      positive issues nothing. */
  function Owed(elapsed: real, interval: real): nat
    requires interval > 0.0
  {
    var f := TaskCount(elapsed, interval);
    if f > 0 then f else 0
  }

  /** The new `lastTick`: moved by the whole intervals paid out, and left
      alone when nothing is owed. */
  function Advance(lastTick: real, interval: real, now: real): real
    requires interval > 0.0
  {
    var n := Owed(now - lastTick, interval);
    if n > 0 then lastTick + n as real * interval else lastTick
  }

  /** `nextDelay`: how long the re-armed timer waits, given the clock
      reading `now` taken after the invocations were issued. The timer is
      aimed at the moment the next invocation falls due, and never earlier. */
  function NextDelay(interval: real, lastTick: real, now: real): (d: real)
    requires interval > 0.0
    ensures d >= 0.0
    ensures now + d >= lastTick + interval
    ensures d > 0.0 ==> now + d == lastTick + interval
    ensures now >= lastTick ==> d <= interval
  {
    Max(0.0, interval - (now - lastTick))
  }

  // Arithmetic on whole numbers of intervals. Products of a count and an
  // interval are reasoned about through Times, which adds the interval
  // `count` times, so that the proofs built on them stay linear.

  lemma MulMonotone(a: real, b: real, c: real)
    requires a <= b && c > 0.0
    ensures a * c <= b * c
  {
  }

  lemma MulStrict(a: real, b: real, c: real)
    requires a < b && c > 0.0
    ensures a * c < b * c
  {
  }

  lemma DivMul(x: real, c: real)
    requires c > 0.0
    ensures (x / c) * c == x
  {
  }

  /** `count * interval`, written as repeated addition. */
  function Times(count: nat, interval: real): real
  {
    if count == 0 then 0.0 else Times(count - 1, interval) + interval
  }

  lemma {:induction false} TimesIsProduct(count: nat, interval: real)
    ensures Times(count, interval) == count as real * interval
  {
    if count > 0 {
      TimesIsProduct(count - 1, interval);
      assert (count - 1) as real * interval + interval == count as real * interval;
    }
  }

  lemma {:induction false} TimesAdd(a: nat, b: nat, interval: real)
    ensures Times(a + b, interval) == Times(a, interval) + Times(b, interval)
    decreases b
  {
    if b > 0 {
      TimesAdd(a, b - 1, interval);
    }
  }

  lemma {:induction false} TimesMonotone(a: nat, b: nat, interval: real)
    requires a <= b && interval > 0.0
    ensures Times(a, interval) <= Times(b, interval)
    decreases b
  {
    if a < b {
      TimesMonotone(a, b - 1, interval);
    }
  }

  /** If `a` whole intervals fit in `span` and `b + 1` do not, then `a <= b`. */
  lemma CountBound(a: nat, b: nat, span: real, interval: real)
    requires interval > 0.0
    requires Times(a, interval) <= span < Times(b, interval) + interval
    ensures a <= b
  {
    if a > b {
      TimesMonotone(b + 1, a, interval);
    }
  }

  /** `k` whole intervals fit in `span` and `k + 1` do not, restated in
      terms of the rate. */
  lemma ScaleToRate(k: nat, i: real, rate: real, span: real)
    requires rate > 0.0 && i == Interval(rate)
    requires k as real * i <= span < k as real * i + i
    ensures k as real <= rate * span / BASE_PERIOD_MS < k as real + 1.0
  {
    MulMonotone(k as real * i, span, rate);
    MulStrict(span, k as real * i + i, rate);
    assert k as real * i * rate == k as real * BASE_PERIOD_MS;
    assert (k as real * i + i) * rate == k as real * BASE_PERIOD_MS + BASE_PERIOD_MS;
    DivideBounds(k as real, rate * span, BASE_PERIOD_MS);
  }

  lemma DivideBounds(k: real, x: real, b: real)
    requires b > 0.0 && k * b <= x < k * b + b
    ensures k <= x / b < k + 1.0
  {
    var y := x / b;
    DivMul(x, b);
    if y < k { MulStrict(y, k, b); }
    if y >= k + 1.0 { MulMonotone(k + 1.0, y, b); }
  }

  // What a single tick computes.

  /** A count `f` within one of `elapsed / interval` gives a whole number
      of intervals within one interval of `elapsed`. */
  lemma WholeIntervals(elapsed: real, interval: real, q: real, f: nat)
    requires interval > 0.0 && q * interval == elapsed
    requires f as real <= q < (f + 1) as real
    ensures Times(f, interval) <= elapsed < Times(f, interval) + interval
  {
    assert Times(f, interval) <= elapsed by {
      MulMonotone(f as real, q, interval);
      TimesIsProduct(f, interval);
    }
    assert elapsed < Times(f + 1, interval) by {
      MulStrict(q, (f + 1) as real, interval);
      TimesIsProduct(f + 1, interval);
    }
    assert Times(f + 1, interval) == Times(f, interval) + interval;
  }

  /** A positive Math.floor(elapsed / interval), as exact reals, counts the
      whole intervals in `elapsed`. */
  lemma FloorPositive(elapsed: real, interval: real)
    requires interval > 0.0 && (elapsed / interval).Floor > 0
    ensures Times((elapsed / interval).Floor, interval) <= elapsed
    ensures elapsed < Times((elapsed / interval).Floor, interval) + interval
  {
    DivMul(elapsed, interval);
    WholeIntervals(elapsed, interval, elapsed / interval, (elapsed / interval).Floor);
  }

  /** A floor that is not positive means less than one interval elapsed. */
  lemma FloorNotPositive(elapsed: real, interval: real)
    requires interval > 0.0 && (elapsed / interval).Floor <= 0
    ensures elapsed < interval
  {
    var q := elapsed / interval;
    DivMul(elapsed, interval);
    MulStrict(q, 1.0, interval);
  }

  /** The count a tick issues is the number of whole intervals in `elapsed`:
      those intervals fit in it, one more does not. */
  lemma OwedBounds(elapsed: real, interval: real)
    requires interval > 0.0
    ensures Owed(elapsed, interval) == 0 || Times(Owed(elapsed, interval), interval) <= elapsed
    ensures elapsed < Times(Owed(elapsed, interval), interval) + interval
  {
    if (elapsed / interval).Floor > 0 {
      FloorPositive(elapsed, interval);
    } else {
      FloorNotPositive(elapsed, interval);
    }
  }

  /** The two bounds of OwedBounds single out one count. */
  lemma OwedUnique(elapsed: real, interval: real, k: nat)
    requires interval > 0.0
    requires Times(k, interval) <= elapsed < Times(k, interval) + interval
    ensures Owed(elapsed, interval) == k
  {
    var n := Owed(elapsed, interval);
    OwedBounds(elapsed, interval);
    if n > 0 {
      CountBound(n, k, elapsed, interval);
    }
    CountBound(k, n, elapsed, interval);
  }

  /** A tick after a pause pays out every whole interval of the pause at
      once: no pause is too long for the burst to grow. */
  lemma CatchUpBurst(lastTick: real, interval: real, now: real, k: nat)
    requires interval > 0.0
    requires now - lastTick >= k as real * interval
    ensures Owed(now - lastTick, interval) >= k
  {
    OwedBounds(now - lastTick, interval);
    TimesIsProduct(k, interval);
    CountBound(k, Owed(now - lastTick, interval), now - lastTick, interval);
  }

  /** Whatever the count, `lastTick` moves by exactly count * interval. */
  lemma AdvanceByOwed(lastTick: real, interval: real, now: real)
    requires interval > 0.0
    ensures Advance(lastTick, interval, now) == lastTick + Times(Owed(now - lastTick, interval), interval)
  {
    TimesIsProduct(Owed(now - lastTick, interval), interval);
  }

  /** A tick never moves `lastTick` backwards, never past the clock, and
      leaves less than one interval unaccounted for. */
  lemma AdvanceBounds(lastTick: real, interval: real, now: real)
    requires interval > 0.0
    ensures Advance(lastTick, interval, now) >= lastTick
    ensures now >= lastTick ==> lastTick <= Advance(lastTick, interval, now) <= now
    ensures now >= lastTick ==> now - Advance(lastTick, interval, now) < interval
    ensures now < lastTick + interval ==> Advance(lastTick, interval, now) == lastTick
  {
    var n := Owed(now - lastTick, interval);
    OwedBounds(now - lastTick, interval);
    AdvanceByOwed(lastTick, interval, now);
    TimesMonotone(0, n, interval);
    if n > 0 {
      TimesMonotone(1, n, interval);
    }
  }

  /** The tick as `loop` writes it, from the raw `taskCount`: the count
      it issues is the owed count, and the `lastTick` it writes is
      `Advance`, one whole interval per invocation. */
  lemma TickFromTaskCount(lastTick: real, interval: real, now: real, taskCount: int)
    requires interval > 0.0 && taskCount == TaskCount(now - lastTick, interval)
    ensures Owed(now - lastTick, interval) == if taskCount > 0 then taskCount else 0
    ensures (if taskCount > 0 then lastTick + taskCount as real * interval else lastTick)
            == Advance(lastTick, interval, now)
    ensures Advance(lastTick, interval, now) == lastTick + Times(Owed(now - lastTick, interval), interval)
    ensures Advance(lastTick, interval, now) >= lastTick
    ensures now >= lastTick ==> 0.0 <= now - Advance(lastTick, interval, now) < interval
  {
    AdvanceByOwed(lastTick, interval, now);
    AdvanceBounds(lastTick, interval, now);
  }

  // The history of ticks.

  /** What one tick did: how many tasks it issued, and at which interval. */
  datatype Batch = Batch(count: nat, interval: real)

  /** Tasks issued over a history of ticks. */
  function Issued(ledger: seq<Batch>): nat
  {
    if ledger == [] then 0 else Issued(ledger[..|ledger| - 1]) + ledger[|ledger| - 1].count
  }

  /** Time accounted for over a history of ticks: the sum of count * interval. */
  function Consumed(ledger: seq<Batch>): real
  {
    if ledger == [] then 0.0
    else Consumed(ledger[..|ledger| - 1]) + Times(ledger[|ledger| - 1].count, ledger[|ledger| - 1].interval)
  }

  ghost predicate PositiveIntervals(ledger: seq<Batch>)
  {
    forall k :: 0 <= k < |ledger| ==> ledger[k].interval > 0.0
  }

  lemma {:induction false} IssuedAppend(ledger: seq<Batch>, b: Batch)
    ensures Issued(ledger + [b]) == Issued(ledger) + b.count
  {
    assert (ledger + [b])[..|ledger|] == ledger;
  }

  lemma {:induction false} ConsumedAppend(ledger: seq<Batch>, b: Batch)
    ensures Consumed(ledger + [b]) == Consumed(ledger) + Times(b.count, b.interval)
  {
    assert (ledger + [b])[..|ledger|] == ledger;
  }

  /** Time accounted for is never negative: `lastTick` never falls behind
      where it started. */
  lemma {:induction false} ConsumedNonNegative(ledger: seq<Batch>)
    requires PositiveIntervals(ledger)
    ensures Consumed(ledger) >= 0.0
  {
    if ledger != [] {
      var last := ledger[|ledger| - 1];
      ConsumedNonNegative(ledger[..|ledger| - 1]);
      TimesMonotone(0, last.count, last.interval);
    }
  }

  // Many ticks at one rate.

  /** `lastTick` and the number of tasks issued so far. */
  datatype Progress = Progress(lastTick: real, issued: nat)

  /** The effect of one tick on that progress. */
  function Step(p: Progress, interval: real, now: real): Progress
    requires interval > 0.0
  {
    Progress(Advance(p.lastTick, interval, now), p.issued + Owed(now - p.lastTick, interval))
  }

  /** The effect of ticks at the clock readings `clock`, at a fixed interval. */
  function Replay(p: Progress, interval: real, clock: seq<real>): Progress
    requires interval > 0.0
    decreases |clock|
  {
    if clock == [] then p else Replay(Step(p, interval, clock[0]), interval, clock[1..])
  }

  ghost predicate NonDecreasing(clock: seq<real>)
  {
    forall j, k :: 0 <= j <= k < |clock| ==> clock[j] <= clock[k]
  }

  /** What the second of two ticks owes completes what the first paid. */
  lemma TwoTicksCount(lastTick: real, interval: real, t1: real, t2: real)
    requires interval > 0.0
    requires lastTick <= t1 <= t2
    ensures Owed(t1 - lastTick, interval) + Owed(t2 - Advance(lastTick, interval, t1), interval)
         == Owed(t2 - lastTick, interval)
  {
    var n1 := Owed(t1 - lastTick, interval);
    var mid := Advance(lastTick, interval, t1);
    AdvanceByOwed(lastTick, interval, t1);
    AdvanceBounds(lastTick, interval, t1);
    var n2 := Owed(t2 - mid, interval);
    OwedBounds(t2 - mid, interval);
    TimesAdd(n1, n2, interval);
    OwedUnique(t2 - lastTick, interval, n1 + n2);
  }

  /** Two ticks pay out exactly what one tick at the later time would. */
  lemma TwoTicksAsOne(p: Progress, interval: real, t1: real, t2: real)
    requires interval > 0.0
    requires p.lastTick <= t1 <= t2
    ensures Step(Step(p, interval, t1), interval, t2) == Step(p, interval, t2)
  {
    var lastTick := p.lastTick;
    var n1 := Owed(t1 - lastTick, interval);
    var mid := Advance(lastTick, interval, t1);
    var n2 := Owed(t2 - mid, interval);
    TwoTicksCount(lastTick, interval, t1, t2);
    AdvanceByOwed(lastTick, interval, t1);
    AdvanceByOwed(mid, interval, t2);
    AdvanceByOwed(lastTick, interval, t2);
    TimesAdd(n1, n2, interval);
  }

  /** Drift correction: however the ticks are spread over time, the tasks
      issued and the final `lastTick` depend only on the last clock
      reading, as if a single tick had happened then. */
  lemma {:induction false} ReplayIsOneTick(p: Progress, interval: real, clock: seq<real>)
    requires interval > 0.0
    requires clock != [] && NonDecreasing(clock) && p.lastTick <= clock[0]
    ensures Replay(p, interval, clock) == Step(p, interval, clock[|clock| - 1])
    decreases |clock|
  {
    if |clock| > 1 {
      var q := Step(p, interval, clock[0]);
      AdvanceBounds(p.lastTick, interval, clock[0]);
      assert q.lastTick <= clock[1];
      ReplayIsOneTick(q, interval, clock[1..]);
      TwoTicksAsOne(p, interval, clock[0], clock[|clock| - 1]);
    }
  }

  /** `count` invocations over `span` milliseconds are within one of what
      `rate` tasks per second asks for. */
  ghost predicate WithinOne(count: int, rate: real, span: real)
  {
    count as real <= rate * span / BASE_PERIOD_MS < count as real + 1.0
  }

  /** The count owed after `span` milliseconds at `rate` is within one of
      `rate * span / BASE_PERIOD_MS`. */
  lemma OwedAtRate(n: nat, span: real, rate: real)
    requires rate > 0.0 && span >= 0.0
    requires n == Owed(span, Interval(rate))
    ensures WithinOne(n, rate, span)
  {
    var i := Interval(rate);
    OwedBounds(span, i);
    TimesIsProduct(n, i);
    ScaleToRate(n, i, rate, span);
  }

  /** Convergence: after ticks spanning `span` milliseconds at `rate`, the
      number of tasks issued is within one of `rate * span / BASE_PERIOD_MS`,
      whatever the timer's jitter. */
  lemma Convergence(p: Progress, rate: real, clock: seq<real>)
    requires rate > 0.0
    requires clock != [] && NonDecreasing(clock) && p.lastTick <= clock[0]
    ensures WithinOne(Replay(p, Interval(rate), clock).issued - p.issued, rate, clock[|clock| - 1] - p.lastTick)
  {
    var i := Interval(rate);
    var last := clock[|clock| - 1];
    ReplayIsOneTick(p, i, clock);
    var n := Replay(p, i, clock).issued - p.issued;
    assert n == Owed(last - p.lastTick, i);
    OwedAtRate(n, last - p.lastTick, rate);
  }
}
