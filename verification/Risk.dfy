/** The order checks of risk_manager.h: order rate, positions and exposure, and the daily drawdown. */
module RiskRules {
  import opened Klines

  /** std::abs on doubles. */
  function Abs(x: real): real {
    if x >= 0.0 then x else -x
  }

  // ---------------------------------------------------------------------------------------------
  // Order rate
  // ---------------------------------------------------------------------------------------------

  /** The clock counts nanoseconds. */
  const SECOND := 1_000_000_000

  /** duration_cast to seconds: rounds towards zero. */
  function WholeSeconds(d: int): int {
    if d >= 0 then d / SECOND else -((-d) / SECOND)
  }

  /** static_cast<size_t>(int): a negative limit becomes huge. */
  function SizeCast(n: int): int {
    if n >= 0 then n else n + 0x1_0000_0000_0000_0000
  }

  datatype Limits = Limits(
    maxOrderValue: real, maxOrderQuantity: real, maxPositionValue: real, maxTotalExposure: real, maxOpenOrders: int,
    maxDrawdownPct: real, dailyLossLimit: real, drawdownMode: string, maxOrdersPerSecond: int, maxOrdersPerMinute: int)

  /** What is left after popping expired records from the front. */
  function Pruned(records: seq<int>, now: int): seq<int> {
    if records != [] && WholeSeconds(now - records[0]) > 60 then Pruned(records[1..], now) else records
  }

  /** How many records are less than a whole second old; a full scan. */
  function RecentCount(records: seq<int>, now: int): nat {
    if records == [] then 0
    else RecentCount(records[..|records| - 1], now) + if WholeSeconds(now - records[|records| - 1]) < 1 then 1 else 0
  }

  predicate RatePasses(limits: Limits, records: seq<int>, now: int) {
    var kept := Pruned(records, now);
    RecentCount(kept, now) < limits.maxOrdersPerSecond && |kept| < SizeCast(limits.maxOrdersPerMinute)
  }

  ghost predicate Sorted(s: seq<int>) {
    forall i, j | 0 <= i < j < |s| :: s[i] <= s[j]
  }

  ghost predicate NotAfter(s: seq<int>, now: int) {
    forall i | 0 <= i < |s| :: s[i] <= now
  }

  lemma WholeSecondsMeaning(d: int)
    requires d >= 0
    ensures WholeSeconds(d) < 1 <==> d < SECOND
    ensures WholeSeconds(d) > 60 <==> d >= 61 * SECOND
  {
  }

  /** Runs: checks and records at increasing times. */
  datatype Op = Check(at: int) | Record(at: int)

  /** The deque, everything ever recorded, the time, and whether a check has passed since the last record. */
  datatype RateState = RateState(records: seq<int>, history: seq<int>, clock: int, cleared: bool)

  function RateStep(limits: Limits, s: RateState, op: Op): RateState {
    match op
    case Check(t) => RateState(Pruned(s.records, t), s.history, t, s.cleared || RatePasses(limits, s.records, t))
    case Record(t) => RateState(s.records + [t], s.history + [t], t, false)
  }

  /** The clock does not run back, and an order is recorded only after its own passing check. */
  ghost predicate Allowed(s: RateState, op: Op) {
    op.at >= s.clock && (op.Record? ==> s.cleared)
  }

  ghost predicate RateRun(limits: Limits, s: RateState, ops: seq<Op>)
    decreases |ops|
  {
    ops == [] || (Allowed(s, ops[0]) && RateRun(limits, RateStep(limits, s, ops[0]), ops[1..]))
  }

  function RateEnd(limits: Limits, s: RateState, ops: seq<Op>): RateState
    decreases |ops|
  {
    if ops == [] then s else RateEnd(limits, RateStep(limits, s, ops[0]), ops[1..])
  }

  /** Any `k + 1` records in a row span at least `span`. */
  ghost predicate SpreadOut(history: seq<int>, k: int, span: int) {
    forall i, j | 0 <= i < |history| && 0 <= j < |history| && j == i + k :: history[j] - history[i] >= span
  }

  /** One more record now would keep the history spread out. */
  ghost predicate RoomFor(history: seq<int>, k: int, span: int, now: int) {
    k > 0 && (|history| >= k ==> now - history[|history| - k] >= span)
  }

  /** The deque is the end of the history; what is missing in front is at least 61 seconds old. */
  ghost predicate KeepsRecent(records: seq<int>, history: seq<int>, now: int) {
    && |records| <= |history| && records == history[|history| - |records|..]
    && forall i | 0 <= i < |history| - |records| :: now - history[i] >= 61 * SECOND
  }

  ghost predicate RateInv(limits: Limits, s: RateState) {
    var k, m := limits.maxOrdersPerSecond, SizeCast(limits.maxOrdersPerMinute);
    && Sorted(s.history) && NotAfter(s.history, s.clock) && KeepsRecent(s.records, s.history, s.clock)
    && (s.history != [] ==> k > 0 && m > 0)
    && SpreadOut(s.history, k, SECOND) && SpreadOut(s.history, m, 61 * SECOND)
    && (s.cleared ==> RoomFor(s.history, k, SECOND, s.clock) && RoomFor(s.history, m, 61 * SECOND, s.clock))
  }

  lemma {:induction false} PruneKeepsRecent(records: seq<int>, history: seq<int>, before: int, now: int)
    requires before <= now && NotAfter(history, before) && KeepsRecent(records, history, before)
    ensures KeepsRecent(Pruned(records, now), history, now)
  {
    if records != [] && WholeSeconds(now - records[0]) > 60 {
      WholeSecondsMeaning(now - records[0]);
      PruneKeepsRecent(records[1..], history, now, now);
    }
  }

  /** The recent records are the last ones. */
  lemma {:induction false} RecentAreLast(records: seq<int>, now: int)
    requires Sorted(records) && NotAfter(records, now)
    ensures RecentCount(records, now) <= |records|
    ensures forall i | 0 <= i < |records| :: now - records[i] < SECOND <==> i >= |records| - RecentCount(records, now)
  {
    if records != [] {
      var front, last := records[..|records| - 1], records[|records| - 1];
      RecentAreLast(front, now);
      WholeSecondsMeaning(now - last);
    }
  }

  /** A passing check leaves room for one more record under both limits. */
  lemma CheckLeavesRoom(limits: Limits, kept: seq<int>, history: seq<int>, now: int)
    requires Sorted(history) && NotAfter(history, now) && KeepsRecent(kept, history, now)
    requires RecentCount(kept, now) < limits.maxOrdersPerSecond && |kept| < SizeCast(limits.maxOrdersPerMinute)
    ensures RoomFor(history, limits.maxOrdersPerSecond, SECOND, now)
    ensures RoomFor(history, SizeCast(limits.maxOrdersPerMinute), 61 * SECOND, now)
  {
    RecentAreLast(kept, now);
    var k := limits.maxOrdersPerSecond;
    if |kept| >= k {
      assert kept[|kept| - k] == history[|history| - k];
    }
  }

  lemma RecordStaysSpread(history: seq<int>, k: int, span: int, before: int, now: int)
    requires SpreadOut(history, k, span) && RoomFor(history, k, span, before) && before <= now
    ensures SpreadOut(history + [now], k, span)
  {
  }

  lemma RateStepInv(limits: Limits, s: RateState, op: Op)
    requires RateInv(limits, s) && Allowed(s, op)
    ensures RateInv(limits, RateStep(limits, s, op))
  {
    match op
    case Check(t) => CheckStepInv(limits, s, t);
    case Record(t) => RecordStepInv(limits, s, t);
  }

  lemma CheckStepInv(limits: Limits, s: RateState, t: int)
    requires RateInv(limits, s) && t >= s.clock
    ensures RateInv(limits, RateStep(limits, s, Check(t)))
  {
    PruneKeepsRecent(s.records, s.history, s.clock, t);
    if RatePasses(limits, s.records, t) {
      CheckLeavesRoom(limits, Pruned(s.records, t), s.history, t);
    }
  }

  lemma RecordStepInv(limits: Limits, s: RateState, t: int)
    requires RateInv(limits, s) && t >= s.clock && s.cleared
    ensures RateInv(limits, RateStep(limits, s, Record(t)))
  {
    RecordStaysSpread(s.history, limits.maxOrdersPerSecond, SECOND, s.clock, t);
    RecordStaysSpread(s.history, SizeCast(limits.maxOrdersPerMinute), 61 * SECOND, s.clock, t);
    RecordKeepsRecent(s.records, s.history, s.clock, t);
  }

  lemma {:induction false} RateRunInv(limits: Limits, s: RateState, ops: seq<Op>)
    requires RateInv(limits, s) && RateRun(limits, s, ops)
    ensures RateInv(limits, RateEnd(limits, s, ops))
    decreases |ops|
  {
    if ops != [] {
      RateStepInv(limits, s, ops[0]);
      RateRunInv(limits, RateStep(limits, s, ops[0]), ops[1..]);
    }
  }

  /** How many records lie in the window [from, from + span). */
  ghost function WindowCount(history: seq<int>, from: int, span: int): nat {
    if history == [] then 0
    else
      WindowCount(history[..|history| - 1], from, span) +
      if from <= history[|history| - 1] < from + span then 1 else 0
  }

  lemma {:induction false} WindowCountBound(history: seq<int>, from: int, span: int)
    ensures WindowCount(history, from, span) <= |history|
    ensures (forall i | 0 <= i < |history| :: history[i] < from) ==> WindowCount(history, from, span) == 0
  {
    if history != [] { WindowCountBound(history[..|history| - 1], from, span); }
  }

  lemma {:induction false} WindowCountAppend(a: seq<int>, b: seq<int>, from: int, span: int)
    ensures WindowCount(a + b, from, span) == WindowCount(a, from, span) + WindowCount(b, from, span)
  {
    if b == [] {
      assert a + b == a;
    } else {
      assert (a + b)[..|a + b| - 1] == a + b[..|b| - 1];
      WindowCountAppend(a, b[..|b| - 1], from, span);
    }
  }

  /** When the last record is in the window, those more than k - 1 places before it are not. */
  lemma OnlyLastInWindow(history: seq<int>, k: int, from: int, span: int)
    requires Sorted(history) && 0 < k < |history|
    requires history[|history| - 1] - history[|history| - 1 - k] >= span && history[|history| - 1] < from + span
    ensures WindowCount(history, from, span) <= k
  {
    var a, b := history[..|history| - k], history[|history| - k..];
    assert a + b == history;
    WindowCountAppend(a, b, from, span);
    assert forall i | 0 <= i < |a| :: history[i] <= history[|history| - 1 - k] < from;
    WindowCountBound(a, from, span);
    WindowCountBound(b, from, span);
  }

  /** A spread-out history has at most k records in any window of that span. */
  lemma {:induction false} WindowHoldsAtMost(history: seq<int>, k: int, from: int, span: int)
    requires Sorted(history) && SpreadOut(history, k, span) && k > 0
    ensures WindowCount(history, from, span) <= k
  {
    if history != [] {
      var n := |history|;
      if from <= history[n - 1] < from + span && n > k {
        assert history[n - 1] - history[n - 1 - k] >= span;
        OnlyLastInWindow(history, k, from, span);
      } else if n > k {
        WindowHoldsAtMost(history[..n - 1], k, from, span);
      } else {
        WindowCountBound(history, from, span);
      }
    }
  }

  /**
    Safety over whole runs from the empty deque: no one-second window ever holds more records than the limit per
    second, and no 61-second window, hence no minute, more than the limit per minute.
  */
  lemma RateLimitsHold(limits: Limits, start: int, ops: seq<Op>, from: int)
    requires RateRun(limits, RateState([], [], start, false), ops)
    ensures var history := RateEnd(limits, RateState([], [], start, false), ops).history;
      && WindowCount(history, from, SECOND) <= (if limits.maxOrdersPerSecond > 0 then limits.maxOrdersPerSecond else 0)
      && (history != [] ==> WindowCount(history, from, 61 * SECOND) <= SizeCast(limits.maxOrdersPerMinute))
  {
    var s := RateState([], [], start, false);
    RateRunInv(limits, s, ops);
    var history := RateEnd(limits, s, ops).history;
    if history != [] {
      WindowHoldsAtMost(history, limits.maxOrdersPerSecond, from, SECOND);
      WindowHoldsAtMost(history, SizeCast(limits.maxOrdersPerMinute), from, 61 * SECOND);
    }
  }

  // Exactly when the rate check passes

  /** How many records are younger than `span`. */
  ghost function Younger(history: seq<int>, now: int, span: int): nat {
    if history == [] then 0
    else Younger(history[..|history| - 1], now, span) + if now - history[|history| - 1] < span then 1 else 0
  }

  lemma {:induction false} YoungerAppend(a: seq<int>, b: seq<int>, now: int, span: int)
    ensures Younger(a + b, now, span) == Younger(a, now, span) + Younger(b, now, span)
  {
    if b == [] {
      assert a + b == a;
    } else {
      assert (a + b)[..|a + b| - 1] == a + b[..|b| - 1];
      YoungerAppend(a, b[..|b| - 1], now, span);
    }
  }

  lemma {:induction false} YoungerAllOrNone(history: seq<int>, now: int, span: int)
    ensures (forall i | 0 <= i < |history| :: now - history[i] >= span) ==> Younger(history, now, span) == 0
    ensures (forall i | 0 <= i < |history| :: now - history[i] < span) ==> Younger(history, now, span) == |history|
  {
    if history != [] { YoungerAllOrNone(history[..|history| - 1], now, span); }
  }

  /** What is left after the check: the records younger than 61 seconds, all of them and no other. */
  ghost predicate KeptExactly(kept: seq<int>, history: seq<int>, now: int) {
    && |kept| <= |history| && kept == history[|history| - |kept|..]
    && (forall i | 0 <= i < |history| - |kept| :: now - history[i] >= 61 * SECOND)
    && (forall i | 0 <= i < |kept| :: now - kept[i] < 61 * SECOND)
  }

  lemma {:induction false} PrunedAreYoung(records: seq<int>, now: int)
    requires Sorted(records) && NotAfter(records, now)
    ensures forall i | 0 <= i < |Pruned(records, now)| :: now - Pruned(records, now)[i] < 61 * SECOND
  {
    if records != [] {
      WholeSecondsMeaning(now - records[0]);
      if WholeSeconds(now - records[0]) > 60 {
        PrunedAreYoung(records[1..], now);
      } else {
        assert forall i | 0 <= i < |records| :: records[0] <= records[i];
      }
    }
  }

  /** The deque of a state that keeps its recent records, after a check. */
  lemma CheckKeepsExactly(records: seq<int>, history: seq<int>, before: int, now: int)
    requires Sorted(history) && before <= now && NotAfter(history, before) && KeepsRecent(records, history, before)
    ensures KeptExactly(Pruned(records, now), history, now)
  {
    PruneKeepsRecent(records, history, before, now);
    assert Sorted(records) && NotAfter(records, now);
    PrunedAreYoung(records, now);
  }

  lemma KeptCount(kept: seq<int>, history: seq<int>, now: int)
    requires KeptExactly(kept, history, now)
    ensures Younger(history, now, 61 * SECOND) == |kept|
    ensures Younger(history, now, SECOND) == Younger(kept, now, SECOND)
  {
    var old0 := history[..|history| - |kept|];
    assert old0 + kept == history;
    YoungerAppend(old0, kept, now, 61 * SECOND);
    YoungerAppend(old0, kept, now, SECOND);
    YoungerAllOrNone(old0, now, 61 * SECOND);
    YoungerAllOrNone(old0, now, SECOND);
    YoungerAllOrNone(kept, now, 61 * SECOND);
  }

  lemma {:induction false} RecentIsYounger(records: seq<int>, now: int)
    requires NotAfter(records, now)
    ensures RecentCount(records, now) == Younger(records, now, SECOND)
  {
    if records != [] {
      RecentIsYounger(records[..|records| - 1], now);
      WholeSecondsMeaning(now - records[|records| - 1]);
    }
  }

  /**
    The check passes exactly when fewer records than the first limit are less than a second old, and fewer than the
    second limit less than 61 seconds; and it leaves exactly the records that are less than 61 seconds old.
  */
  lemma CheckIsExact(limits: Limits, records: seq<int>, history: seq<int>, before: int, now: int)
    requires Sorted(history) && before <= now && NotAfter(history, before) && KeepsRecent(records, history, before)
    ensures KeptExactly(Pruned(records, now), history, now)
    ensures RatePasses(limits, records, now) <==>
      && Younger(history, now, SECOND) < limits.maxOrdersPerSecond
      && Younger(history, now, 61 * SECOND) < SizeCast(limits.maxOrdersPerMinute)
  {
    CheckKeepsExactly(records, history, before, now);
    KeptCount(Pruned(records, now), history, now);
    assert NotAfter(Pruned(records, now), now);
    RecentIsYounger(Pruned(records, now), now);
  }

  /** Checks and records in any order, the clock not running back. */
  ghost predicate Timed(start: int, ops: seq<Op>) {
    && (forall i | 0 <= i < |ops| :: start <= ops[i].at)
    && (forall i, j | 0 <= i < j < |ops| :: ops[i].at <= ops[j].at)
  }

  function AfterOps(limits: Limits, start: int, ops: seq<Op>): RateState {
    if ops == [] then RateState([], [], start, false)
    else RateStep(limits, AfterOps(limits, start, ops[..|ops| - 1]), ops[|ops| - 1])
  }

  /** Everything that was recorded, in order. */
  ghost function Recorded(ops: seq<Op>): seq<int> {
    if ops == [] then []
    else
      var last := ops[|ops| - 1];
      Recorded(ops[..|ops| - 1]) + if last.Record? then [last.at] else []
  }

  lemma {:induction false} AnyRunKeepsRecent(limits: Limits, start: int, ops: seq<Op>)
    requires Timed(start, ops)
    ensures var s := AfterOps(limits, start, ops);
      && s.history == Recorded(ops) && Sorted(s.history) && NotAfter(s.history, s.clock)
      && KeepsRecent(s.records, s.history, s.clock)
      && s.clock == if ops == [] then start else ops[|ops| - 1].at
  {
    if ops != [] {
      var front, op := ops[..|ops| - 1], ops[|ops| - 1];
      AnyRunKeepsRecent(limits, start, front);
      var s := AfterOps(limits, start, front);
      if op.Check? {
        PruneKeepsRecent(s.records, s.history, s.clock, op.at);
      } else {
        RecordKeepsRecent(s.records, s.history, s.clock, op.at);
      }
    }
  }

  lemma RecordKeepsRecent(records: seq<int>, history: seq<int>, before: int, now: int)
    requires before <= now && Sorted(history) && NotAfter(history, before) && KeepsRecent(records, history, before)
    ensures Sorted(history + [now]) && NotAfter(history + [now], now)
    ensures KeepsRecent(records + [now], history + [now], now)
  {
    assert (history + [now])[|history| - |records|..] == history[|history| - |records|..] + [now];
  }

  /** After any run of checks and records, disciplined or not, a check answers for everything recorded so far. */
  lemma RateCheckIsExact(limits: Limits, start: int, ops: seq<Op>, now: int)
    requires Timed(start, ops + [Check(now)])
    ensures var records, history := AfterOps(limits, start, ops).records, Recorded(ops);
      && KeptExactly(Pruned(records, now), history, now)
      && (RatePasses(limits, records, now) <==>
            && Younger(history, now, SECOND) < limits.maxOrdersPerSecond
            && Younger(history, now, 61 * SECOND) < SizeCast(limits.maxOrdersPerMinute))
  {
    var all := ops + [Check(now)];
    assert forall i | 0 <= i < |ops| :: all[i] == ops[i];
    assert all[|ops|].at == now;
    AnyRunKeepsRecent(limits, start, ops);
    var s := AfterOps(limits, start, ops);
    assert s.clock <= now;
    CheckIsExact(limits, s.records, s.history, s.clock, now);
  }

  /** A limit that is not negative is taken as it is; a negative one lets every number of records through. */
  lemma SizeCastMeaning(n: int)
    requires -0x8000_0000 <= n < 0x8000_0000
    ensures n >= 0 ==> SizeCast(n) == n
    ensures n < 0 ==> SizeCast(n) >= 0x7FFF_FFFF_FFFF_FFFF
  {
  }

  // The order path: a check and, if the order passes, its record

  /** One order: when it is checked and recorded, and whether the checks in front of the rate check pass. */
  datatype Attempt = Attempt(checked: int, recorded: int, reachesRateCheck: bool)

  function AfterAttempt(limits: Limits, s: RateState, a: Attempt): RateState {
    if !a.reachesRateCheck then s
    else
      var c := RateStep(limits, s, Check(a.checked));
      if RatePasses(limits, s.records, a.checked) then RateStep(limits, c, Record(a.recorded)) else c
  }

  function AfterAttempts(limits: Limits, start: int, attempts: seq<Attempt>): RateState {
    if attempts == [] then RateState([], [], start, false)
    else AfterAttempt(limits, AfterAttempts(limits, start, attempts[..|attempts| - 1]), attempts[|attempts| - 1])
  }

  /** The clock does not run back. */
  ghost predicate InTime(start: int, attempts: seq<Attempt>) {
    && (forall i | 0 <= i < |attempts| :: start <= attempts[i].checked <= attempts[i].recorded)
    && (forall i, j | 0 <= i < j < |attempts| :: attempts[i].recorded <= attempts[j].checked)
  }

  lemma {:induction false} AttemptsInv(limits: Limits, start: int, attempts: seq<Attempt>)
    requires InTime(start, attempts)
    ensures RateInv(limits, AfterAttempts(limits, start, attempts))
    ensures AfterAttempts(limits, start, attempts).clock
      <= if attempts == [] then start else attempts[|attempts| - 1].recorded
  {
    if attempts != [] {
      var front, a := attempts[..|attempts| - 1], attempts[|attempts| - 1];
      AttemptsInv(limits, start, front);
      var s := AfterAttempts(limits, start, front);
      assert s.clock <= a.checked;
      AttemptInv(limits, s, a);
    }
  }

  lemma AttemptInv(limits: Limits, s: RateState, a: Attempt)
    requires RateInv(limits, s) && s.clock <= a.checked <= a.recorded
    ensures RateInv(limits, AfterAttempt(limits, s, a)) && AfterAttempt(limits, s, a).clock <= a.recorded
  {
    RateStepInv(limits, s, Check(a.checked));
    if RatePasses(limits, s.records, a.checked) {
      RateStepInv(limits, RateStep(limits, s, Check(a.checked)), Record(a.recorded));
    }
  }

  /** The order path keeps the discipline by itself, so its records respect both limits in every run. */
  lemma OrderPathRateHolds(limits: Limits, start: int, attempts: seq<Attempt>, from: int)
    requires InTime(start, attempts)
    ensures var history := AfterAttempts(limits, start, attempts).history;
      && WindowCount(history, from, SECOND) <= (if limits.maxOrdersPerSecond > 0 then limits.maxOrdersPerSecond else 0)
      && (history != [] ==> WindowCount(history, from, 61 * SECOND) <= SizeCast(limits.maxOrdersPerMinute))
  {
    AttemptsInv(limits, start, attempts);
    var history := AfterAttempts(limits, start, attempts).history;
    if history != [] {
      WindowHoldsAtMost(history, limits.maxOrdersPerSecond, from, SECOND);
      WindowHoldsAtMost(history, SizeCast(limits.maxOrdersPerMinute), from, 61 * SECOND);
    }
  }

  /** Counting from the back until the first old record. */
  function CountFromBack(records: seq<int>, now: int): nat {
    if records == [] || !(WholeSeconds(now - records[|records| - 1]) < 1) then 0
    else CountFromBack(records[..|records| - 1], now) + 1
  }

  /** On a sorted deque the early exit loses nothing. */
  lemma {:induction false} EarlyExitAgrees(records: seq<int>, now: int)
    requires Sorted(records) && NotAfter(records, now)
    ensures CountFromBack(records, now) == RecentCount(records, now)
  {
    if records != [] {
      EarlyExitAgrees(records[..|records| - 1], now);
      WholeSecondsMeaning(now - records[|records| - 1]);
      RecentAreLast(records, now);
      RecentAreLast(records[..|records| - 1], now);
    }
  }

  // ---------------------------------------------------------------------------------------------
  // Exposure
  // ---------------------------------------------------------------------------------------------

  datatype Side = BUY | SELL

  function PositionOf(positions: map<string, real>, symbol: string): real {
    if symbol in positions then positions[symbol] else 0.0
  }

  /** The sum of the absolute values. */
  ghost function TotalExposure(positions: map<string, real>): real
    decreases |positions|
  {
    if positions == map[] then 0.0
    else
      var symbol :| symbol in positions;
      RemoveShrinks(positions, symbol);
      Abs(positions[symbol]) + TotalExposure(positions - {symbol})
  }

  lemma RemoveShrinks(positions: map<string, real>, symbol: string)
    requires symbol in positions
    ensures |positions - {symbol}| < |positions|
  {
    assert (positions - {symbol}).Keys == positions.Keys - {symbol};
    assert |(positions - {symbol}).Keys| < |positions.Keys|;
  }

  /** The sum does not depend on the order of the symbols. */
  lemma {:induction false} ExposureWithout(positions: map<string, real>, symbol: string)
    requires symbol in positions
    ensures TotalExposure(positions) == Abs(positions[symbol]) + TotalExposure(positions - {symbol})
    decreases |positions|
  {
    var first :| first in positions
        && TotalExposure(positions) == Abs(positions[first]) + TotalExposure(positions - {first});
    if first != symbol {
      RemoveShrinks(positions, first);
      RemoveShrinks(positions, symbol);
      ExposureWithout(positions - {first}, symbol);
      ExposureWithout(positions - {symbol}, first);
      assert positions - {first} - {symbol} == positions - {symbol} - {first};
    }
  }

  lemma ExposureOfUpdate(positions: map<string, real>, symbol: string, value: real)
    ensures TotalExposure(positions[symbol := value])
         == TotalExposure(positions) - Abs(PositionOf(positions, symbol)) + Abs(value)
  {
    var updated := positions[symbol := value];
    ExposureWithout(updated, symbol);
    if symbol in positions {
      ExposureWithout(positions, symbol);
      assert updated - {symbol} == positions - {symbol};
    } else {
      assert updated - {symbol} == positions;
    }
  }

  /** An order request. */
  datatype Order = Order(symbol: string, side: Side, quantity: real, value: real)

  function NewPosition(positions: map<string, real>, o: Order): real {
    PositionOf(positions, o.symbol) + if o.side == BUY then o.value else -o.value
  }

  /** The two position checks. */
  ghost predicate PositionPasses(limits: Limits, positions: map<string, real>, o: Order) {
    && Abs(NewPosition(positions, o)) <= limits.maxPositionValue
    && TotalExposure(positions) + o.value <= limits.maxTotalExposure
  }

  ghost predicate WithinLimits(limits: Limits, positions: map<string, real>) {
    && (forall symbol | symbol in positions :: Abs(positions[symbol]) <= limits.maxPositionValue)
    && TotalExposure(positions) <= limits.maxTotalExposure
  }

  /** Accepting an order and then storing the signed new position. */
  ghost function AfterOrder(limits: Limits, positions: map<string, real>, o: Order): map<string, real> {
    if PositionPasses(limits, positions, o) then positions[o.symbol := NewPosition(positions, o)] else positions
  }

  lemma OrderStaysWithin(limits: Limits, positions: map<string, real>, o: Order)
    requires WithinLimits(limits, positions) && o.value >= 0.0
    ensures WithinLimits(limits, AfterOrder(limits, positions, o))
  {
    ExposureOfUpdate(positions, o.symbol, NewPosition(positions, o));
  }

  ghost function AfterOrders(limits: Limits, positions: map<string, real>, orders: seq<Order>): map<string, real> {
    if orders == [] then positions
    else AfterOrder(limits, AfterOrders(limits, positions, orders[..|orders| - 1]), orders[|orders| - 1])
  }

  /** In every reachable state each position and the total exposure respect their limits. */
  lemma {:induction false} OrdersStayWithin(limits: Limits, positions: map<string, real>, orders: seq<Order>)
    requires WithinLimits(limits, positions) && forall i | 0 <= i < |orders| :: orders[i].value >= 0.0
    ensures WithinLimits(limits, AfterOrders(limits, positions, orders))
  {
    if orders != [] {
      OrdersStayWithin(limits, positions, orders[..|orders| - 1]);
      OrderStaysWithin(limits, AfterOrders(limits, positions, orders[..|orders| - 1]), orders[|orders| - 1]);
    }
  }

  // ---------------------------------------------------------------------------------------------
  // The whole check
  // ---------------------------------------------------------------------------------------------

  /** The checks in the order in which they are made, and the result of an order that passes all of them. */
  datatype CheckResult =
    | KillSwitch | OrderValue | OrderQuantity | OpenOrders | PositionLimit | Exposure | DailyLoss | OrderRate | Passed

  function Rank(r: CheckResult): nat {
    match r
    case KillSwitch => 0
    case OrderValue => 1
    case OrderQuantity => 2
    case OpenOrders => 3
    case PositionLimit => 4
    case Exposure => 5
    case DailyLoss => 6
    case OrderRate => 7
    case Passed => 8
  }

  /** What the check of an order looks at. */
  datatype Desk = Desk(
    limits: Limits, killSwitch: bool, positions: map<string, real>, openOrderCount: int, dailyPnl: real,
    records: seq<int>)

  /** The state of a new risk manager. */
  function FreshDesk(limits: Limits): Desk {
    Desk(limits, false, map[], 0, 0.0, [])
  }

  /** Whether one check turns the order down. */
  ghost predicate Rejects(c: CheckResult, d: Desk, o: Order, now: int) {
    match c
    case KillSwitch => d.killSwitch
    case OrderValue => o.value > d.limits.maxOrderValue
    case OrderQuantity => o.quantity > d.limits.maxOrderQuantity
    case OpenOrders => d.openOrderCount >= d.limits.maxOpenOrders
    case PositionLimit => Abs(NewPosition(d.positions, o)) > d.limits.maxPositionValue
    case Exposure => TotalExposure(d.positions) + o.value > d.limits.maxTotalExposure
    case DailyLoss => d.dailyPnl < -d.limits.dailyLossLimit
    case OrderRate => !RatePasses(d.limits, d.records, now)
    case Passed => false
  }

  /** An order that passes all eight checks. */
  ghost predicate Accepted(d: Desk, o: Order, now: int) {
    forall c :: !Rejects(c, d, o, now)
  }

  /** The first check that rejects, or none: what the result of the check says about acceptance. */
  lemma PassedIsAccepted(d: Desk, o: Order, now: int, r: CheckResult)
    requires forall c | Rank(c) < Rank(r) :: !Rejects(c, d, o, now)
    requires r != Passed ==> Rejects(r, d, o, now)
    ensures r == Passed <==> Accepted(d, o, now)
  {
  }

  function Signed(side: Side, value: real): real {
    if side == BUY then value else -value
  }

  lemma AcceptedPassesEach(d: Desk, o: Order, now: int)
    ensures Accepted(d, o, now) <==>
      && !Rejects(KillSwitch, d, o, now) && !Rejects(OrderValue, d, o, now) && !Rejects(OrderQuantity, d, o, now)
      && !Rejects(OpenOrders, d, o, now) && !Rejects(PositionLimit, d, o, now) && !Rejects(Exposure, d, o, now)
      && !Rejects(DailyLoss, d, o, now) && !Rejects(OrderRate, d, o, now)
  {
  }

  /** The checks in front of the positions. */
  ghost predicate SizeIsFine(d: Desk, o: Order) {
    && !d.killSwitch && o.value <= d.limits.maxOrderValue && o.quantity <= d.limits.maxOrderQuantity
    && d.openOrderCount < d.limits.maxOpenOrders
  }

  ghost predicate PositionIsFine(d: Desk, o: Order) {
    var next := PositionOf(d.positions, o.symbol) + Signed(o.side, o.value);
    && -d.limits.maxPositionValue <= next <= d.limits.maxPositionValue
    && TotalExposure(d.positions) + o.value <= d.limits.maxTotalExposure
  }

  ghost predicate RateIsFine(d: Desk, now: int) {
    && Younger(d.records, now, SECOND) < d.limits.maxOrdersPerSecond
    && Younger(d.records, now, 61 * SECOND) < SizeCast(d.limits.maxOrdersPerMinute)
  }

  lemma SizeMeans(d: Desk, o: Order, now: int)
    ensures SizeIsFine(d, o) <==>
      && !Rejects(KillSwitch, d, o, now) && !Rejects(OrderValue, d, o, now) && !Rejects(OrderQuantity, d, o, now)
      && !Rejects(OpenOrders, d, o, now)
  {
  }

  lemma PositionMeans(d: Desk, o: Order, now: int)
    ensures PositionIsFine(d, o) <==> !Rejects(PositionLimit, d, o, now) && !Rejects(Exposure, d, o, now)
  {
  }

  /** When an order is accepted, for a deque that is sorted and not in the future, without naming the checks. */
  lemma AcceptedMeans(d: Desk, o: Order, now: int)
    requires Sorted(d.records) && NotAfter(d.records, now)
    ensures Accepted(d, o, now) <==>
      SizeIsFine(d, o) && PositionIsFine(d, o) && d.dailyPnl >= -d.limits.dailyLossLimit && RateIsFine(d, now)
  {
    CheckIsExact(d.limits, d.records, d.records, now, now);
    AcceptedPassesEach(d, o, now);
    SizeMeans(d, o, now);
    PositionMeans(d, o, now);
  }

  lemma AcceptedPasses(d: Desk, o: Order, now: int)
    requires Accepted(d, o, now)
    ensures PositionPasses(d.limits, d.positions, o)
  {
    assert !Rejects(PositionLimit, d, o, now) && !Rejects(Exposure, d, o, now);
  }

  /** An order of this value, once accepted and followed by the signed position, never leaves the limits. */
  ghost predicate ValueIsSafe(value: real) {
    forall d: Desk, o: Order, now: int ::
      o.value == value && WithinLimits(d.limits, d.positions) && Accepted(d, o, now) ==>
        WithinLimits(d.limits, d.positions[o.symbol := NewPosition(d.positions, o)])
  }

  /** A new manager accepts an order of any negative value under these limits, and the exposure limit is exceeded. */
  lemma NegativeValueBreaksLimits(value: real, symbol: string, now: int)
    requires value < 0.0
    ensures
      var d := FreshDesk(Limits(0.0, 1.0, -value, 0.0, 1, 0.0, 0.0, "daily_peak", 1, 1));
      var o := Order(symbol, BUY, 1.0, value);
      && WithinLimits(d.limits, d.positions) && Accepted(d, o, now)
      && !WithinLimits(d.limits, d.positions[symbol := NewPosition(d.positions, o)])
  {
    ExposureOfUpdate(map[], symbol, value);
  }

  /**
    The eight checks together protect the position limits exactly for order values that are not negative. A negative
    value lowers the sum that the exposure check looks at, while the stored position grows.
  */
  lemma SafeIffNotNegative(value: real)
    ensures ValueIsSafe(value) <==> value >= 0.0
  {
    if value >= 0.0 {
      forall d: Desk, o: Order, now: int
        | o.value == value && WithinLimits(d.limits, d.positions) && Accepted(d, o, now)
        ensures WithinLimits(d.limits, d.positions[o.symbol := NewPosition(d.positions, o)])
      {
        AcceptedPasses(d, o, now);
        OrderStaysWithin(d.limits, d.positions, o);
      }
    } else {
      NegativeValueBreaksLimits(value, "BTC", 0);
      assert Order("BTC", BUY, 1.0, value).value == value;
    }
  }

  // ---------------------------------------------------------------------------------------------
  // Positions stored without their sign
  // ---------------------------------------------------------------------------------------------

  /**
    Checked against the stored value, whatever the true position is: an order of this side is safe when, under
    whatever limits and values it is accepted, the new true position stays within the position limit.
  */
  ghost predicate StoredIsSafe(stored: real, position: real, side: Side) {
    forall d: Desk, o: Order, now: int ::
      o.side == side && o.value >= 0.0 && PositionOf(d.positions, o.symbol) == stored &&
      Abs(position) <= d.limits.maxPositionValue && Accepted(d, o, now) ==>
        Abs(position + Signed(side, o.value)) <= d.limits.maxPositionValue
  }

  predicate StoredIsBehind(stored: real, position: real, side: Side) {
    if side == BUY then position <= stored else position >= stored
  }

  function Larger(x: real, y: real): real {
    if x >= y then x else y
  }

  /** A manager that holds one position, and the order that uses up its position limit as far as it can see. */
  function OneDesk(stored: real, position: real, side: Side, symbol: string): (Desk, Order) {
    var limit := Larger(Abs(stored), Abs(position));
    var value := if side == BUY then limit - stored else limit + stored;
    var limits := Limits(value, 1.0, limit, Abs(stored) + value, 1, 0.0, 0.0, "daily_peak", 1, 1);
    (FreshDesk(limits).(positions := map[symbol := stored]), Order(symbol, side, 1.0, value))
  }

  /** When the stored value lies on the wrong side of the true position, that order is accepted and breaks the limit. */
  lemma StoredBreaksLimit(stored: real, position: real, side: Side, symbol: string, now: int)
    requires !StoredIsBehind(stored, position, side)
    ensures var (d, o) := OneDesk(stored, position, side, symbol);
      && o.value >= 0.0 && WithinLimits(d.limits, d.positions) && Abs(position) <= d.limits.maxPositionValue
      && Accepted(d, o, now) && Abs(position + Signed(side, o.value)) > d.limits.maxPositionValue
  {
    ExposureOfUpdate(map[], symbol, stored);
    assert map[][symbol := stored] == map[symbol := stored];
  }

  /** Exactly when: a purchase needs a true position not above the stored one, a sale one not below it. */
  lemma StoredSafeIff(stored: real, position: real, side: Side)
    ensures StoredIsSafe(stored, position, side) <==> StoredIsBehind(stored, position, side)
  {
    if StoredIsBehind(stored, position, side) {
      forall d: Desk, o: Order, now: int
        | o.side == side && o.value >= 0.0 && PositionOf(d.positions, o.symbol) == stored &&
          Abs(position) <= d.limits.maxPositionValue && Accepted(d, o, now)
        ensures Abs(position + Signed(side, o.value)) <= d.limits.maxPositionValue
      {
        AcceptedPasses(d, o, now);
      }
    } else {
      StoredBreaksLimit(stored, position, side, "BTC", 0);
      var (d, o) := OneDesk(stored, position, side, "BTC");
      assert o.side == side && PositionOf(d.positions, o.symbol) == stored;
    }
  }

  /**
    The account monitor stores the absolute value of a position. Freshly stored, it protects the position exactly when
    the order is not a sale on a short position.
  */
  lemma UnsignedSafeIff(position: real, side: Side)
    ensures StoredIsSafe(Abs(position), position, side) <==> position >= 0.0 || side == BUY
  {
    StoredSafeIff(Abs(position), position, side);
  }

  /** A short position and a sale of the same size: the check sees zero, the position is twice the limit. */
  lemma SaleOnShortBreaksLimit(position: real, symbol: string, now: int)
    requires position < 0.0
    ensures
      var limits := Limits(-position, 1.0, -position, -position - position, 1, 0.0, 0.0, "daily_peak", 1, 1);
      var d := FreshDesk(limits).(positions := map[symbol := Abs(position)]);
      var o := Order(symbol, SELL, 1.0, -position);
      && WithinLimits(limits, d.positions) && Accepted(d, o, now)
      && Abs(position + Signed(SELL, o.value)) > limits.maxPositionValue
  {
    ExposureOfUpdate(map[], symbol, -position);
    assert map[][symbol := -position] == map[symbol := -position];
  }

  /** What a websocket update leaves stored: a notional up to one cent is passed over. */
  function StoredAfterPush(stored: map<string, real>, symbol: string, notional: real): map<string, real> {
    if Abs(notional) > 0.01 then stored[symbol := Abs(notional)] else stored
  }

  /**
    A long position that is closed stays stored. After the push that reports it closed, every purchase is still
    safe and no sale is.
  */
  lemma ClosedPositionStaysStored(stored: map<string, real>, symbol: string, side: Side)
    requires PositionOf(stored, symbol) > 0.0
    ensures StoredAfterPush(stored, symbol, 0.0) == stored
    ensures StoredIsSafe(PositionOf(StoredAfterPush(stored, symbol, 0.0), symbol), 0.0, side) <==> side == BUY
  {
    StoredSafeIff(PositionOf(stored, symbol), 0.0, side);
  }

  /** The positions as the account monitor stores them. */
  function Unsigned(book: map<string, real>): map<string, real> {
    map symbol | symbol in book :: Abs(book[symbol])
  }

  lemma UnsignedWithout(book: map<string, real>, symbol: string)
    requires symbol in book
    ensures Unsigned(book) - {symbol} == Unsigned(book - {symbol})
    ensures Abs(Unsigned(book)[symbol]) == Abs(book[symbol])
  {
  }

  lemma {:induction false} UnsignedExposure(book: map<string, real>)
    ensures TotalExposure(Unsigned(book)) == TotalExposure(book)
    decreases |book|
  {
    if book == map[] {
      assert Unsigned(book) == map[];
    } else {
      var symbol :| symbol in book;
      RemoveShrinks(book, symbol);
      UnsignedExposure(book - {symbol});
      UnsignedWithout(book, symbol);
      ExposureWithout(book, symbol);
      ExposureWithout(Unsigned(book), symbol);
    }
  }

  /** The true positions after orders that are checked against positions stored without sign. */
  ghost function BookAfter(limits: Limits, book: map<string, real>, orders: seq<Order>): map<string, real> {
    if orders == [] then book
    else
      var b, o := BookAfter(limits, book, orders[..|orders| - 1]), orders[|orders| - 1];
      if PositionPasses(limits, Unsigned(b), o)
      then b[o.symbol := PositionOf(b, o.symbol) + Signed(o.side, o.value)]
      else b
  }

  /** The exposure limit does not need the sign: over every run of orders it holds for the true positions. */
  lemma {:induction false} ExposureHoldsUnsigned(limits: Limits, book: map<string, real>, orders: seq<Order>)
    requires TotalExposure(book) <= limits.maxTotalExposure
    requires forall i | 0 <= i < |orders| :: orders[i].value >= 0.0
    ensures TotalExposure(BookAfter(limits, book, orders)) <= limits.maxTotalExposure
  {
    if orders != [] {
      var b, o := BookAfter(limits, book, orders[..|orders| - 1]), orders[|orders| - 1];
      ExposureHoldsUnsigned(limits, book, orders[..|orders| - 1]);
      UnsignedExposure(b);
      ExposureOfUpdate(b, o.symbol, PositionOf(b, o.symbol) + Signed(o.side, o.value));
    }
  }

  // ---------------------------------------------------------------------------------------------
  // Drawdown
  // ---------------------------------------------------------------------------------------------

  /** What is kept of one strategy; a missing entry reads as zeros. */
  datatype DayTrack = DayTrack(peak: real, initial: real, date: int)

  datatype Update = Update(strategy: string, date: int, equity: real)

  function TrackUpdate(t: DayTrack, date: int, equity: real): DayTrack {
    if t.date != date || t.peak == 0.0 then DayTrack(equity, equity, date)
    else t.(peak := if equity > t.peak then equity else t.peak)
  }

  /** Whether the update raises the drawdown alert; resets and first values do not. */
  predicate Alerts(mode: string, maxPct: real, t: DayTrack, date: int, equity: real) {
    if t.date != date || t.peak == 0.0 then false
    else if mode == "daily_initial" then (if t.initial > 0.0 then (t.initial - equity) / t.initial else 0.0) > maxPct
    else (t.peak - equity) / t.peak > maxPct
  }

  function TrackOf(tracks: map<string, DayTrack>, strategy: string): DayTrack {
    if strategy in tracks then tracks[strategy] else DayTrack(0.0, 0.0, 0)
  }

  function TracksAfter(updates: seq<Update>): map<string, DayTrack> {
    if updates == [] then map[]
    else
      var before, u := TracksAfter(updates[..|updates| - 1]), updates[|updates| - 1];
      before[u.strategy := TrackUpdate(TrackOf(before, u.strategy), u.date, u.equity)]
  }

  /** The equities of the strategy's current day: its last updates, as long as the date is that of the last one. */
  ghost function CurrentDay(updates: seq<Update>, strategy: string): (day: seq<real>)
  {
    if updates == [] then []
    else
      var front, u := updates[..|updates| - 1], updates[|updates| - 1];
      if u.strategy != strategy then CurrentDay(front, strategy)
      else if LastDate(front, strategy) == Some(u.date) then CurrentDay(front, strategy) + [u.equity]
      else [u.equity]
  }

  ghost function LastDate(updates: seq<Update>, strategy: string): Option<int> {
    if updates == [] then None
    else if updates[|updates| - 1].strategy == strategy then Some(updates[|updates| - 1].date)
    else LastDate(updates[..|updates| - 1], strategy)
  }

  ghost predicate IsMaximum(x: real, values: seq<real>) {
    x in values && forall v | v in values :: v <= x
  }

  /**
    For positive equities, after any updates of any strategies: the initial equity of a strategy is the first
    value of its current day and the peak is the maximum of that day.
  */
  lemma {:induction false} TracksAreCurrentDay(updates: seq<Update>, strategy: string)
    requires forall i | 0 <= i < |updates| :: updates[i].equity > 0.0
    ensures var t, day := TrackOf(TracksAfter(updates), strategy), CurrentDay(updates, strategy);
      match LastDate(updates, strategy)
      case None => t == DayTrack(0.0, 0.0, 0) && day == []
      case Some(date) => day != [] && t.date == date && t.initial == day[0] > 0.0 && IsMaximum(t.peak, day)
  {
    if updates != [] {
      var front, u := updates[..|updates| - 1], updates[|updates| - 1];
      TracksAreCurrentDay(front, strategy);
      if u.strategy == strategy {
        var before, day := TrackOf(TracksAfter(front), strategy), CurrentDay(front, strategy);
        if LastDate(front, strategy) == Some(u.date) {
          assert day[0] in day;
          MaximumMore(before.peak, day, u.equity);
        } else {
          assert IsMaximum(u.equity, [u.equity]);
        }
      }
    }
  }

  lemma MaximumMore(x: real, values: seq<real>, y: real)
    requires IsMaximum(x, values)
    ensures IsMaximum(if y > x then y else x, values + [y])
  {
    assert y in values + [y] && x in values + [y];
  }

  /** A share of a positive reference is exceeded exactly when the drop exceeds that part of the reference. */
  lemma DropExceeds(x: real, e: real, p: real)
    requires x > 0.0
    ensures (x - e) / x > p <==> x - e > p * x
  {
    var q := (x - e) / x;
    assert q * x == x - e;
    Cancel(q, p, x);
    Cancel(p, q, x);
    if q > p { assert (q - p) * x > 0.0; Distribute(q - p, p, x); }
  }

  /**
    What an alert means. For positive equities an update alerts exactly when the strategy's day is already running
    and the equity has dropped by more than the limit: from the day's first value in mode daily_initial, from the
    day's maximum in every other mode.
  */
  lemma AlertMeans(updates: seq<Update>, mode: string, maxPct: real, u: Update, m: real)
    requires u.equity > 0.0 && forall i | 0 <= i < |updates| :: updates[i].equity > 0.0
    requires CurrentDay(updates, u.strategy) != [] ==> IsMaximum(m, CurrentDay(updates, u.strategy))
    ensures Alerts(mode, maxPct, TrackOf(TracksAfter(updates), u.strategy), u.date, u.equity) <==>
      && LastDate(updates, u.strategy) == Some(u.date) && CurrentDay(updates, u.strategy) != []
      && DropsBy(if mode == "daily_initial" then CurrentDay(updates, u.strategy)[0] else m, u.equity, maxPct)
  {
    var t := TrackOf(TracksAfter(updates), u.strategy);
    TracksAreCurrentDay(updates, u.strategy);
    if LastDate(updates, u.strategy).Some? {
      OneMaximum(m, t.peak, CurrentDay(updates, u.strategy));
      assert CurrentDay(updates, u.strategy)[0] in CurrentDay(updates, u.strategy);
      TrackAlerts(mode, maxPct, t, u.date, u.equity);
    }
  }

  /** The equity lies below the reference by more than this part of it. */
  predicate DropsBy(reference: real, equity: real, maxPct: real) {
    reference - equity > maxPct * reference
  }

  lemma OneMaximum(x: real, y: real, values: seq<real>)
    requires IsMaximum(x, values) && IsMaximum(y, values)
    ensures x == y
  {
  }

  lemma TrackAlerts(mode: string, maxPct: real, t: DayTrack, date: int, equity: real)
    requires 0.0 < t.initial <= t.peak
    ensures Alerts(mode, maxPct, t, date, equity) <==>
      t.date == date && DropsBy(if mode == "daily_initial" then t.initial else t.peak, equity, maxPct)
  {
    DropExceeds(t.initial, equity, maxPct);
    DropExceeds(t.peak, equity, maxPct);
  }

  /** For positive equities, an update that alerts in mode daily_initial also alerts in mode daily_peak. */
  lemma InitialAlertImpliesPeakAlert(updates: seq<Update>, maxPct: real, u: Update)
    requires u.equity > 0.0 && forall i | 0 <= i < |updates| :: updates[i].equity > 0.0
    requires Alerts("daily_initial", maxPct, TrackOf(TracksAfter(updates), u.strategy), u.date, u.equity)
    ensures Alerts("daily_peak", maxPct, TrackOf(TracksAfter(updates), u.strategy), u.date, u.equity)
  {
    TrackInOrder(updates, u.strategy);
    PeakAlertsToo(TrackOf(TracksAfter(updates), u.strategy), maxPct, u.date, u.equity);
  }

  lemma TrackInOrder(updates: seq<Update>, strategy: string)
    requires forall i | 0 <= i < |updates| :: updates[i].equity > 0.0
    ensures var t := TrackOf(TracksAfter(updates), strategy); t.peak == 0.0 || 0.0 < t.initial <= t.peak
  {
    TracksAreCurrentDay(updates, strategy);
    if LastDate(updates, strategy).Some? {
      var day := CurrentDay(updates, strategy);
      assert day[0] in day;
    }
  }

  lemma PeakAlertsToo(t: DayTrack, maxPct: real, date: int, equity: real)
    requires equity > 0.0 && (t.peak == 0.0 || 0.0 < t.initial <= t.peak)
    ensures Alerts("daily_initial", maxPct, t, date, equity) ==> Alerts("daily_peak", maxPct, t, date, equity)
  {
    if t.peak != 0.0 { DrawdownGrowsWithReference(t.initial, t.peak, equity); }
  }

  lemma DrawdownGrowsWithReference(a: real, b: real, e: real)
    requires 0.0 < a <= b && e > 0.0
    ensures (a - e) / a <= (b - e) / b
  {
    OneMinus(a, e);
    OneMinus(b, e);
    var x, y := e / a, e / b;
    assert x * a == e && y * b == e;
    MulMonotone(y, a, b);
    Cancel(y, x, a);
  }

  lemma Distribute(x: real, y: real, a: real)
    ensures (x + y) * a == x * a + y * a
  {
  }

  lemma OneMinus(a: real, e: real)
    requires a > 0.0
    ensures (a - e) / a == 1.0 - e / a
  {
    var x, y := (a - e) / a, e / a;
    assert x * a == a - e && y * a == e;
    Distribute(x, y, a);
    Cancel(x + y, 1.0, a);
    Cancel(1.0, x + y, a);
  }

  lemma MulMonotone(y: real, a: real, b: real)
    requires a <= b
    ensures y >= 0.0 ==> y * a <= y * b
  {
    if y >= 0.0 { assert y * (b - a) >= 0.0; }
  }

  lemma Cancel(x: real, y: real, a: real)
    requires a > 0.0
    ensures x * a <= y * a ==> x <= y
  {
    if x > y { assert (x - y) * a > 0.0; }
  }
}

/** The risk manager itself. The clock readings are parameters; sending alerts is left out. */
module RiskManagers {
  import opened RiskRules

  class RiskManager {
    var limits: Limits
    var killSwitch: bool
    var positionValues: map<string, real>
    var strategyPeakPnl: map<string, real>
    var strategyInitialEquity: map<string, real>
    var strategyLastResetDate: map<string, int>
    var openOrderCount: int
    var dailyPnl: real
    var orderTimestamps: seq<int>

    constructor (limits: Limits)
      ensures CurrentDesk() == FreshDesk(limits)
      ensures forall s :: Track(s) == DayTrack(0.0, 0.0, 0)
    {
      this.limits := limits;
      killSwitch, openOrderCount, dailyPnl := false, 0, 0.0;
      positionValues, orderTimestamps := map[], [];
      strategyPeakPnl, strategyInitialEquity, strategyLastResetDate := map[], map[], map[];
    }

    /** check_rate_limit: drops expired records, then counts. */
    method CheckRateLimit(now: int) returns (ok: bool)
      modifies this`orderTimestamps
      ensures orderTimestamps == Pruned(old(orderTimestamps), now)
      ensures ok == RatePasses(limits, old(orderTimestamps), now)
      ensures Sorted(old(orderTimestamps)) && NotAfter(old(orderTimestamps), now) ==>
        && KeptExactly(orderTimestamps, old(orderTimestamps), now)
        && (ok <==>
              && Younger(old(orderTimestamps), now, SECOND) < limits.maxOrdersPerSecond
              && Younger(old(orderTimestamps), now, 61 * SECOND) < SizeCast(limits.maxOrdersPerMinute))
    {
      ghost var before := orderTimestamps;
      if Sorted(before) && NotAfter(before, now) { CheckIsExact(limits, before, before, now, now); }
      while orderTimestamps != [] && WholeSeconds(now - orderTimestamps[0]) > 60
        invariant Pruned(orderTimestamps, now) == Pruned(old(orderTimestamps), now)
        decreases |orderTimestamps|
      {
        orderTimestamps := orderTimestamps[1..];
      }
      var countLastSecond := 0;
      var i := |orderTimestamps|;
      assert orderTimestamps[..i] == orderTimestamps;
      while i > 0
        invariant 0 <= i <= |orderTimestamps|
        invariant countLastSecond + RecentCount(orderTimestamps[..i], now) == RecentCount(orderTimestamps, now)
      {
        i := i - 1;
        assert orderTimestamps[..i + 1][..i] == orderTimestamps[..i];
        if WholeSeconds(now - orderTimestamps[i]) < 1 { countLastSecond := countLastSecond + 1; }
      }
      if countLastSecond >= limits.maxOrdersPerSecond { return false; }
      if |orderTimestamps| >= SizeCast(limits.maxOrdersPerMinute) { return false; }
      ok := true;
    }

    method RecordOrderExecution(now: int)
      modifies this`orderTimestamps
      ensures orderTimestamps == old(orderTimestamps) + [now]
    {
      orderTimestamps := orderTimestamps + [now];
    }

    /** get_current_order_rate: counts from the back and stops at the first old record. */
    method GetCurrentOrderRate(now: int) returns (count: nat)
      ensures count == CountFromBack(orderTimestamps, now)
      ensures Sorted(orderTimestamps) && NotAfter(orderTimestamps, now) ==> count == RecentCount(orderTimestamps, now)
    {
      count := 0;
      var i := |orderTimestamps|;
      assert orderTimestamps[..i] == orderTimestamps;
      while i > 0
        invariant 0 <= i <= |orderTimestamps|
        invariant count + CountFromBack(orderTimestamps[..i], now) == CountFromBack(orderTimestamps, now)
      {
        assert orderTimestamps[..i][..i - 1] == orderTimestamps[..i - 1];
        if WholeSeconds(now - orderTimestamps[i - 1]) < 1 {
          count := count + 1;
        } else {
          break;
        }
        i := i - 1;
      }
      if Sorted(orderTimestamps) && NotAfter(orderTimestamps, now) { EarlyExitAgrees(orderTimestamps, now); }
    }

    method CalculateTotalExposure() returns (total: real)
      ensures total == TotalExposure(positionValues)
    {
      total := 0.0;
      var rest := positionValues;
      while rest != map[]
        invariant total + TotalExposure(rest) == TotalExposure(positionValues)
        decreases |rest|
      {
        var symbol :| symbol in rest;
        ExposureWithout(rest, symbol);
        RemoveShrinks(rest, symbol);
        total := total + Abs(rest[symbol]);
        rest := rest - {symbol};
      }
    }

    ghost function CurrentDesk(): Desk
      reads this
    {
      Desk(limits, killSwitch, positionValues, openOrderCount, dailyPnl, orderTimestamps)
    }

    /** The checks of one order in the order the source makes them; the rate check runs only when all others pass. */
    method CheckOrderWithValue(o: Order, now: int) returns (r: CheckResult)
      modifies this`orderTimestamps
      ensures forall c | Rank(c) < Rank(r) :: !Rejects(c, old(CurrentDesk()), o, now)
      ensures r != Passed ==> Rejects(r, old(CurrentDesk()), o, now)
      ensures orderTimestamps ==
        if r == Passed || r == OrderRate then Pruned(old(orderTimestamps), now) else old(orderTimestamps)
    {
      if killSwitch { return KillSwitch; }
      if o.value > limits.maxOrderValue { return OrderValue; }
      if o.quantity > limits.maxOrderQuantity { return OrderQuantity; }
      if openOrderCount >= limits.maxOpenOrders { return OpenOrders; }
      var currentPosition := PositionOf(positionValues, o.symbol);
      var newPosition := currentPosition + if o.side == BUY then o.value else -o.value;
      if Abs(newPosition) > limits.maxPositionValue { return PositionLimit; }
      var totalExposure := CalculateTotalExposure();
      if totalExposure + o.value > limits.maxTotalExposure { return Exposure; }
      if dailyPnl < -limits.dailyLossLimit { return DailyLoss; }
      var ok := CheckRateLimit(now);
      if !ok { return OrderRate; }
      r := Passed;
    }

    /** The order path: the check and, if the order passes, its record. No position is stored. */
    method AdmitOrder(o: Order, checked: int, recorded: int) returns (r: CheckResult)
      modifies this`orderTimestamps
      ensures r == Passed <==> Accepted(old(CurrentDesk()), o, checked)
      ensures orderTimestamps ==
        AfterAttempt(limits, RateState(old(orderTimestamps), [], checked, false),
                     Attempt(checked, recorded, r == Passed || r == OrderRate)).records
    {
      ghost var d := CurrentDesk();
      r := CheckOrderWithValue(o, checked);
      PassedIsAccepted(d, o, checked, r);
      assert r == Passed ==> !Rejects(OrderRate, d, o, checked);
      if r == Passed {
        RecordOrderExecution(recorded);
      }
    }

    method UpdatePosition(symbol: string, value: real)
      modifies this`positionValues
      ensures positionValues == old(positionValues)[symbol := value]
    {
      positionValues := positionValues[symbol := value];
    }

    /**
      A caller that follows every accepted order with the signed new position. In the framework the order path only
      records the order, and the stored positions are those the account monitor writes later.
    */
    method PlaceOrder(o: Order, now: int) returns (r: CheckResult)
      requires WithinLimits(limits, positionValues) && o.value >= 0.0
      modifies this`positionValues, this`orderTimestamps
      ensures WithinLimits(limits, positionValues)
      ensures r == Passed ==> positionValues == AfterOrder(limits, old(positionValues), o)
      ensures r != Passed ==> positionValues == old(positionValues)
    {
      r := CheckOrderWithValue(o, now);
      if r == Passed {
        PassedIsAccepted(old(CurrentDesk()), o, now, r);
        AcceptedPasses(old(CurrentDesk()), o, now);
        OrderStaysWithin(limits, positionValues, o);
        UpdatePosition(o.symbol, NewPosition(positionValues, o));
      }
    }

    /** The three maps read as one record per strategy. */
    function Track(strategy: string): DayTrack
      reads this
    {
      DayTrack(if strategy in strategyPeakPnl then strategyPeakPnl[strategy] else 0.0,
               if strategy in strategyInitialEquity then strategyInitialEquity[strategy] else 0.0,
               if strategy in strategyLastResetDate then strategyLastResetDate[strategy] else 0)
    }

    method ResetDay(equity: real, strategyId: string, currentDate: int)
      modifies this`strategyPeakPnl, this`strategyInitialEquity, this`strategyLastResetDate
      ensures Track(strategyId) == DayTrack(equity, equity, currentDate)
      ensures forall s | s != strategyId :: Track(s) == old(Track(s))
    {
      strategyPeakPnl := strategyPeakPnl[strategyId := equity];
      strategyInitialEquity := strategyInitialEquity[strategyId := equity];
      strategyLastResetDate := strategyLastResetDate[strategyId := currentDate];
    }

    /** update_account_equity; `alert` tells whether the drawdown alert goes out. */
    method UpdateAccountEquity(equity: real, strategyId: string, currentDate: int) returns (alert: bool)
      modifies this`strategyPeakPnl, this`strategyInitialEquity, this`strategyLastResetDate
      ensures strategyId == "" ==> !alert && forall s :: Track(s) == old(Track(s))
      ensures strategyId != "" ==> Track(strategyId) == TrackUpdate(old(Track(strategyId)), currentDate, equity)
      ensures strategyId != "" ==>
        alert == Alerts(limits.drawdownMode, limits.maxDrawdownPct, old(Track(strategyId)), currentDate, equity)
      ensures forall s | s != strategyId :: Track(s) == old(Track(s))
    {
      alert := false;
      if strategyId == "" { return; }
      var t := Track(strategyId);   // operator[] reads a missing entry as zero
      if t.date != currentDate || t.peak == 0.0 {
        ResetDay(equity, strategyId, currentDate);
        return;
      }
      var peak, initial := t.peak, t.initial;
      var drawdownPct := 0.0;
      if limits.drawdownMode == "daily_initial" {
        if initial > 0.0 { drawdownPct := (initial - equity) / initial; }
      } else {
        drawdownPct := (peak - equity) / peak;
      }
      if drawdownPct > limits.maxDrawdownPct { alert := true; }
      if equity > peak { strategyPeakPnl := strategyPeakPnl[strategyId := equity]; }
    }
  }
}
