/** What the gap detector reports for a single point in time, in terms of the clock and the stored candles. */
module GapMeaning {
  import opened Intervals
  import opened GapDetection

  /** A point of the grid is not before an aligned time exactly when its candle ends after that time. */
  lemma AlignedBounds(t: int, step: int, time: int)
    requires step > 0 && time >= 0 && t % step == 0
    ensures t >= AlignTimestamp(time, step) <==> t + step > time
    ensures t <= AlignTimestamp(time, step) - step <==> t + step <= time
  {
    var a := AlignTimestamp(time, step);
    assert a <= time < a + step;
    DifferenceOfTicks(a, t, step);
    DifferenceOfTicks(t, a, step);
    if t < a { NoTickInside(a - t, step); }
    if t > a { NoTickInside(t - a, step); }
  }

  /** Rounding goes down from zero on, and up below it. */
  lemma AlignTimestampMeaning(time: int, step: int)
    requires step > 0
    ensures time >= 0 ==> AlignTimestamp(time, step) <= time < AlignTimestamp(time, step) + step
    ensures time <= 0 ==> AlignTimestamp(time, step) - step < time <= AlignTimestamp(time, step)
  {
    assert (-time) / step * step + (-time) % step == -time;
  }

  /**
    The days a candle of this interval is kept, which is how far the detector looks back; other intervals are not
    searched before their first candle.
  */
  ghost predicate Keeps(interval: string, days: int) {
    || (days == 60 && (interval == "1m" || interval == "5m" || interval == "15m" || interval == "30m"))
    || (days == 180 && (interval == "1h" || interval == "1H"))
  }

  /** A candle that the detector has to ask for: its time is on the grid, in the window, and it is closed. */
  ghost predicate IsWanted(t: int, interval: string, first: int, last: int, now1: int, now2: int) {
    var step := IntervalMs(interval);
    && t % step == 0
    && (first <= t || exists days :: Keeps(interval, days) && now1 - days * 86_400_000 < t + step)
    && (t <= last || t + step <= now2)
  }

  lemma StartMeans(interval: string, first: int, now: int, t: int)
    requires now >= 180 * DAY && first % IntervalMs(interval) == 0 && t % IntervalMs(interval) == 0
    ensures
      var step := IntervalMs(interval);
      var lo := WindowStart(DaysToCheck(interval), step, first, now);
      && lo <= first && lo % step == 0
      && (lo <= t <==> first <= t || exists days :: Keeps(interval, days) && now - days * 86_400_000 < t + step)
  {
    var days := DaysToCheck(interval);
    assert days > 0 ==> Keeps(interval, days);
    assert forall d | Keeps(interval, d) :: d == days;
    AlignedBounds(t, IntervalMs(interval), now - days * DAY);
  }

  lemma EndMeans(step: int, last: int, now: int, t: int)
    requires step > 0 && now >= 0 && last % step == 0 && t % step == 0
    ensures var hi := WindowEnd(step, last, now);
      last <= hi && hi % step == 0 && (t <= hi <==> t <= last || t + step <= now)
  {
    AlignedBounds(t, step, now);
    ModShift(AlignTimestamp(now, step), -1, step);
  }

  lemma CoveredInWindow(gaps: seq<Gap>, lo: int, step: int, hi: int, t: int)
    requires step > 0 && Separated(gaps, lo, step, hi) && Covered(gaps, t)
    ensures lo <= t <= hi
  {
    var i :| 0 <= i < |gaps| && Covers(gaps[i], t);
    assert IsTick(gaps[i].startTs, lo, step, hi) && IsTick(gaps[i].endTs, lo, step, hi);
  }

  /**
    What the detector's result means candle by candle: an aligned time lies in a gap exactly when it is wanted and
    not stored.
  */
  lemma GapsMean(interval: string, present: set<int>, first: int, last: int, now1: int, now2: int, t: int)
    requires IsRange(present, first, last) && forall x | x in present :: x % IntervalMs(interval) == 0
    requires now1 >= 180 * DAY && now2 >= 0 && t % IntervalMs(interval) == 0
    ensures
      var step := IntervalMs(interval);
      var lo, hi := WindowStart(DaysToCheck(interval), step, first, now1), WindowEnd(step, last, now2);
      Covered(GapsUpTo(present, lo, step, hi), t) <==>
        IsWanted(t, interval, first, last, now1, now2) && t !in present
  {
    var step, days := IntervalMs(interval), DaysToCheck(interval);
    var lo, hi := WindowStart(days, step, first, now1), WindowEnd(step, last, now2);
    StartMeans(interval, first, now1, t);
    EndMeans(step, last, now2, t);
    GapsAreExactCover(present, lo, step, hi);
    DifferenceOfTicks(lo, hi, step);
    DifferenceOfTicks(lo, t, step);
    TickMeaning(t, lo, step, hi);
    if Covered(GapsUpTo(present, lo, step, hi), t) {
      CoveredInWindow(GapsUpTo(present, lo, step, hi), lo, step, hi, t);
    }
  }

  /**
    Two neighbouring bars have no gap between them, for every stored interval but one: "8h" is missing from
    the table of lengths and falls through to one minute, so the detector asks for the minutes in between.
  */
  lemma NeighbouringBars(interval: string, t: int)
    requires interval in {"1m", "5m", "15m", "30m", "1h", "4h", "8h"}
    ensures var present, next := {t, t + NamedMs(interval)}, t + NamedMs(interval);
      GapsUpTo(present, t, IntervalMs(interval), next)
        == if interval == "8h" then [Gap(t + 60_000, next - 60_000)] else []
  {
    IntervalTable(interval);
    var present, next := {t, t + NamedMs(interval)}, t + NamedMs(interval);
    if interval == "8h" {
      TickMeaning(t, t, 60_000, next - 60_000);
      AbsentStretch(present, t, 60_000, t, next - 60_000);
      assert GapsUpTo(present, t, 60_000, t - 60_000) == [];
    } else {
      var step := IntervalMs(interval);
      assert step == NamedMs(interval);
      assert GapsUpTo(present, t, step, t - step) == [];
      assert GapsUpTo(present, t, step, t) == [];
    }
  }
}
