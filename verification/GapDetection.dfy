/**
  Finding the missing candles of a time grid.

  Three programs of the repository look for gaps: one walks over the sorted timestamps, one asks the
  grid points one by one whether they are present, and one merges the list of missing points into
  runs. Each is proved equal to `GapsUpTo`, and `GapsUpTo` is proved to be the only exact cover of the
  missing grid points.
*/
module GapDetection {
  import opened Intervals

  /** A closed interval of missing candles. */
  datatype Gap = Gap(startTs: int, endTs: int)

  // ---------------------------------------------------------------------------------------------
  // What a gap list means
  // ---------------------------------------------------------------------------------------------

  /** `t` is one of the grid points hi, hi - step, hi - 2 * step, ... not before `lo`. */
  ghost predicate IsTick(t: int, lo: int, step: int, hi: int): (b: bool)
    requires step > 0
    ensures b ==> lo <= t <= hi && (t == hi || t <= hi - step)
    decreases if hi < lo then 0 else hi - lo + 1
  {
    lo <= hi && (t == hi || IsTick(t, lo, step, hi - step))
  }

  ghost predicate Covers(g: Gap, t: int) {
    g.startTs <= t <= g.endTs
  }

  ghost predicate Covered(gaps: seq<Gap>, t: int) {
    exists i | 0 <= i < |gaps| :: Covers(gaps[i], t)
  }

  /**
    The gaps are non-empty, lie on the grid of the window, and come in increasing order with at least one grid point
    between two of them.
  */
  ghost predicate Separated(gaps: seq<Gap>, lo: int, step: int, hi: int)
    requires step > 0
  {
    && (forall i | 0 <= i < |gaps| :: gaps[i].startTs <= gaps[i].endTs)
    && (forall i | 0 <= i < |gaps| :: IsTick(gaps[i].startTs, lo, step, hi))
    && (forall i | 0 <= i < |gaps| :: IsTick(gaps[i].endTs, lo, step, hi))
    && (forall i, j | 0 <= i < j < |gaps| :: gaps[i].endTs + step < gaps[j].startTs)
  }

  /** Separated gaps that contain exactly the grid points that are not present. */
  ghost predicate ExactCover(gaps: seq<Gap>, present: set<int>, lo: int, step: int, hi: int)
    requires step > 0
  {
    && Separated(gaps, lo, step, hi)
    && (forall t {:trigger Covered(gaps, t)} | IsTick(t, lo, step, hi) :: t !in present <==> Covered(gaps, t))
  }

  /** One more grid point after the gaps found so far. */
  function Extend(before: seq<Gap>, present: set<int>, step: int, t: int): seq<Gap> {
    if t in present then before
    else if before != [] && before[|before| - 1].endTs == t - step
    then before[..|before| - 1] + [Gap(before[|before| - 1].startTs, t)]
    else before + [Gap(t, t)]
  }

  /** The gaps of the grid points lo, lo + step, ..., hi, built from left to right. */
  function GapsUpTo(present: set<int>, lo: int, step: int, hi: int): (gaps: seq<Gap>)
    requires step > 0
    ensures gaps != [] ==> gaps[|gaps| - 1].endTs <= hi
    decreases if hi < lo then 0 else hi - lo + 1
  {
    if hi < lo then []
    else Extend(GapsUpTo(present, lo, step, hi - step), present, step, hi)
  }

  // ---------------------------------------------------------------------------------------------
  // Grid arithmetic
  // ---------------------------------------------------------------------------------------------

  lemma MulAtLeast(d: int, step: int)
    requires d >= 1 && step > 0
    ensures d * step >= step
  {
  }

  lemma QuotientUnique(q: int, r: int, q': int, r': int, step: int)
    requires 0 <= r < step && 0 <= r' < step && q * step + r == q' * step + r'
    ensures q == q' && r == r'
  {
    assert (q - q') * step == r' - r;
    if q > q' { MulAtLeast(q - q', step); }
    if q < q' { MulAtLeast(q' - q, step); }
  }

  lemma ModUnique(q: int, r: int, step: int)
    requires 0 <= r < step
    ensures (q * step + r) % step == r && (q * step + r) / step == q
  {
    var x := q * step + r;
    assert x == x / step * step + x % step;
    QuotientUnique(q, r, x / step, x % step, step);
  }

  lemma ModShift(x: int, k: int, step: int)
    requires step > 0
    ensures (x + k * step) % step == x % step
  {
    assert x == x / step * step + x % step;
    assert x + k * step == (x / step + k) * step + x % step;
    ModUnique(x / step + k, x % step, step);
  }

  /** A multiple of `step` is either non-positive or at least `step`. */
  lemma NoTickInside(x: int, step: int)
    requires step > 0 && x % step == 0 && x > 0
    ensures x >= step
  {
    assert x == x / step * step;
  }

  lemma DifferenceOfTicks(x: int, y: int, step: int)
    requires step > 0 && x % step == 0 && y % step == 0
    ensures (y - x) % step == 0 && (x + y) % step == 0
  {
    assert x == x / step * step && y == y / step * step;
    ModUnique(y / step - x / step, 0, step);
    ModUnique(y / step + x / step, 0, step);
    assert y - x == (y / step - x / step) * step;
    assert y + x == (y / step + x / step) * step;
  }

  // ---------------------------------------------------------------------------------------------
  // GapsUpTo is the one exact cover
  // ---------------------------------------------------------------------------------------------

  /** On a window that ends on the grid, the grid points are the ones a whole number of steps from `lo`. */
  lemma {:induction false} TickMeaning(t: int, lo: int, step: int, hi: int)
    requires step > 0 && (hi - lo) % step == 0
    ensures IsTick(t, lo, step, hi) <==> lo <= t <= hi && (t - lo) % step == 0
    decreases if hi < lo then 0 else hi - lo + 1
  {
    if hi >= lo {
      ModShift(hi - lo, -1, step);
      TickMeaning(t, lo, step, hi - step);
      if lo <= t < hi && (t - lo) % step == 0 {
        DifferenceOfTicks(t - lo, hi - lo, step);
        NoTickInside(hi - t, step);
      }
    }
  }

  lemma {:induction false} GapsAreExactCover(present: set<int>, lo: int, step: int, hi: int)
    requires step > 0
    ensures ExactCover(GapsUpTo(present, lo, step, hi), present, lo, step, hi)
    decreases if hi < lo then 0 else hi - lo + 1
  {
    if hi >= lo {
      GapsAreExactCover(present, lo, step, hi - step);
      ExtendCover(GapsUpTo(present, lo, step, hi - step), present, lo, step, hi);
    }
  }

  lemma ExtendCover(before: seq<Gap>, present: set<int>, lo: int, step: int, hi: int)
    requires step > 0 && lo <= hi
    requires ExactCover(before, present, lo, step, hi - step)
    ensures ExactCover(Extend(before, present, step, hi), present, lo, step, hi)
  {
    var gaps := Extend(before, present, step, hi);
    ExtendSeparated(before, present, lo, step, hi);
    forall t | IsTick(t, lo, step, hi)
      ensures t !in present <==> Covered(gaps, t)
    {
      if t != hi {
        CoverOfExtend(before, present, step, hi, t);
      } else if hi !in present {
        assert Covers(gaps[|gaps| - 1], hi);
      }
    }
  }

  lemma SeparatedSnoc(front: seq<Gap>, g: Gap, lo: int, step: int, hi: int)
    requires step > 0 && Separated(front, lo, step, hi)
    requires g.startTs <= g.endTs && IsTick(g.startTs, lo, step, hi) && IsTick(g.endTs, lo, step, hi)
    requires front != [] ==> front[|front| - 1].endTs + step < g.startTs
    ensures Separated(front + [g], lo, step, hi)
  {
  }

  lemma SeparatedPrefix(gaps: seq<Gap>, k: nat, lo: int, step: int, hi: int)
    requires step > 0 && k <= |gaps| && Separated(gaps, lo, step, hi)
    ensures Separated(gaps[..k], lo, step, hi)
  {
  }

  lemma SeparatedLater(gaps: seq<Gap>, lo: int, step: int, hi: int)
    requires step > 0 && lo <= hi && Separated(gaps, lo, step, hi - step)
    ensures Separated(gaps, lo, step, hi)
  {
    forall i | 0 <= i < |gaps|
      ensures IsTick(gaps[i].startTs, lo, step, hi) && IsTick(gaps[i].endTs, lo, step, hi)
    {
      assert IsTick(gaps[i].startTs, lo, step, hi - step) && IsTick(gaps[i].endTs, lo, step, hi - step);
    }
  }

  lemma SeparatedEarlier(gaps: seq<Gap>, lo: int, step: int, hi: int)
    requires step > 0 && lo <= hi && Separated(gaps, lo, step, hi)
    requires gaps != [] ==> gaps[|gaps| - 1].endTs != hi
    ensures Separated(gaps, lo, step, hi - step)
  {
    forall i | 0 <= i < |gaps|
      ensures IsTick(gaps[i].startTs, lo, step, hi - step) && IsTick(gaps[i].endTs, lo, step, hi - step)
    {
      EndsInOrder(gaps, lo, step, hi, i);
      assert IsTick(gaps[i].startTs, lo, step, hi) && IsTick(gaps[i].endTs, lo, step, hi);
    }
  }

  lemma EndsInOrder(gaps: seq<Gap>, lo: int, step: int, hi: int, i: nat)
    requires step > 0 && Separated(gaps, lo, step, hi) && i < |gaps|
    ensures gaps[i].startTs <= gaps[i].endTs <= gaps[|gaps| - 1].endTs <= hi
    ensures i < |gaps| - 1 ==> gaps[i].endTs + step < gaps[|gaps| - 1].startTs
  {
    assert IsTick(gaps[|gaps| - 1].endTs, lo, step, hi);
  }

  lemma ExtendSeparated(before: seq<Gap>, present: set<int>, lo: int, step: int, hi: int)
    requires step > 0 && lo <= hi
    requires Separated(before, lo, step, hi - step)
    ensures Separated(Extend(before, present, step, hi), lo, step, hi)
  {
    SeparatedLater(before, lo, step, hi);
    if hi !in present {
      if before == [] {
        SeparatedSnoc(before, Gap(hi, hi), lo, step, hi);
      } else {
        var k, last := |before| - 1, before[|before| - 1];
        assert IsTick(last.endTs, lo, step, hi - step);
        if last.endTs == hi - step {
          SeparatedPrefix(before, k, lo, step, hi);
          SeparatedSnoc(before[..k], Gap(last.startTs, hi), lo, step, hi);
        } else {
          EndsBeforeLastTick(last.endTs, lo, step, hi);
          SeparatedSnoc(before, Gap(hi, hi), lo, step, hi);
        }
      }
    }
  }

  lemma EndsBeforeLastTick(t: int, lo: int, step: int, hi: int)
    requires step > 0 && IsTick(t, lo, step, hi - step) && t != hi - step
    ensures t + step < hi
  {
  }

  lemma CoverOfExtend(before: seq<Gap>, present: set<int>, step: int, hi: int, t: int)
    requires step > 0 && t <= hi - step
    requires forall i | 0 <= i < |before| :: before[i].endTs <= hi - step
    ensures Covered(before, t) <==> Covered(Extend(before, present, step, hi), t)
  {
    var gaps := Extend(before, present, step, hi);
    if Covered(before, t) {
      var i :| 0 <= i < |before| && Covers(before[i], t);
      assert Covers(gaps[i], t);
    }
    if Covered(gaps, t) {
      var i :| 0 <= i < |gaps| && Covers(gaps[i], t);
      assert i < |before| && Covers(before[i], t);
    }
  }

  /** The gaps of a window without its last grid point. */
  ghost function Shorten(gaps: seq<Gap>, step: int, hi: int): seq<Gap> {
    if gaps == [] || gaps[|gaps| - 1].endTs != hi then gaps
    else if gaps[|gaps| - 1].startTs == hi then gaps[..|gaps| - 1]
    else gaps[..|gaps| - 1] + [Gap(gaps[|gaps| - 1].startTs, hi - step)]
  }

  lemma LastGapReachesEnd(gaps: seq<Gap>, present: set<int>, lo: int, step: int, hi: int)
    requires step > 0 && lo <= hi && ExactCover(gaps, present, lo, step, hi)
    ensures hi !in present <==> gaps != [] && gaps[|gaps| - 1].endTs == hi
  {
    assert hi !in present <==> Covered(gaps, hi);
    if hi !in present {
      var i :| 0 <= i < |gaps| && Covers(gaps[i], hi);
      OnlyLastReachesEnd(gaps, lo, step, hi, i);
    } else if gaps != [] && gaps[|gaps| - 1].endTs == hi {
      assert Covers(gaps[|gaps| - 1], hi);
      assert false;
    }
  }

  lemma OnlyLastReachesEnd(gaps: seq<Gap>, lo: int, step: int, hi: int, i: nat)
    requires step > 0 && Separated(gaps, lo, step, hi) && i < |gaps| && gaps[i].endTs >= hi
    ensures i == |gaps| - 1 && gaps[i].endTs == hi
  {
    var last := gaps[|gaps| - 1];
    assert IsTick(gaps[i].endTs, lo, step, hi) && IsTick(last.startTs, lo, step, hi);
  }

  lemma ShortenSeparated(gaps: seq<Gap>, lo: int, step: int, hi: int)
    requires step > 0 && lo <= hi && Separated(gaps, lo, step, hi)
    ensures Separated(Shorten(gaps, step, hi), lo, step, hi - step)
  {
    if gaps != [] && gaps[|gaps| - 1].endTs == hi {
      var front := FrontSeparated(gaps, lo, step, hi);
      var start := gaps[|gaps| - 1].startTs;
      if start != hi {
        assert IsTick(start, lo, step, hi);
        ShorterLast(front, start, lo, step, hi);
      }
    } else {
      SeparatedEarlier(gaps, lo, step, hi);
    }
  }

  lemma FrontSeparated(gaps: seq<Gap>, lo: int, step: int, hi: int) returns (front: seq<Gap>)
    requires step > 0 && lo <= hi && Separated(gaps, lo, step, hi) && gaps != []
    ensures front == gaps[..|gaps| - 1] && Separated(front, lo, step, hi - step)
    ensures front != [] ==> front[|front| - 1].endTs + step < gaps[|gaps| - 1].startTs
  {
    var k := |gaps| - 1;
    front := gaps[..k];
    SeparatedPrefix(gaps, k, lo, step, hi);
    if k > 0 { EndsInOrder(gaps, lo, step, hi, k - 1); }
    SeparatedEarlier(front, lo, step, hi);
  }

  lemma ShorterLast(front: seq<Gap>, start: int, lo: int, step: int, hi: int)
    requires step > 0 && lo <= hi && Separated(front, lo, step, hi - step)
    requires front != [] ==> front[|front| - 1].endTs + step < start
    requires IsTick(start, lo, step, hi) && start != hi
    ensures Separated(front + [Gap(start, hi - step)], lo, step, hi - step)
  {
    LastTickBefore(start, lo, step, hi);
    SeparatedSnoc(front, Gap(start, hi - step), lo, step, hi - step);
  }

  lemma LastTickBefore(t: int, lo: int, step: int, hi: int)
    requires step > 0 && IsTick(t, lo, step, hi) && t != hi
    ensures IsTick(t, lo, step, hi - step) && IsTick(hi - step, lo, step, hi - step)
  {
  }

  lemma ShortenExtend(gaps: seq<Gap>, present: set<int>, lo: int, step: int, hi: int)
    requires step > 0 && lo <= hi && ExactCover(gaps, present, lo, step, hi)
    ensures Extend(Shorten(gaps, step, hi), present, step, hi) == gaps
  {
    LastGapReachesEnd(gaps, present, lo, step, hi);
    if hi !in present && gaps[|gaps| - 1].startTs == hi && |gaps| > 1 {
      assert gaps[|gaps| - 2].endTs + step < gaps[|gaps| - 1].startTs;
    }
  }

  lemma ShortenCover(gaps: seq<Gap>, present: set<int>, lo: int, step: int, hi: int)
    requires step > 0 && lo <= hi && ExactCover(gaps, present, lo, step, hi)
    ensures ExactCover(Shorten(gaps, step, hi), present, lo, step, hi - step)
  {
    var short := Shorten(gaps, step, hi);
    ShortenSeparated(gaps, lo, step, hi);
    ShortenExtend(gaps, present, lo, step, hi);
    forall t | IsTick(t, lo, step, hi - step)
      ensures t !in present <==> Covered(short, t)
    {
      assert IsTick(t, lo, step, hi);
      assert forall i | 0 <= i < |short| :: IsTick(short[i].endTs, lo, step, hi - step);
      CoverOfExtend(short, present, step, hi, t);
    }
  }

  lemma NoTickInEmptyWindow(t: int, lo: int, step: int, hi: int)
    requires step > 0 && hi < lo
    ensures !IsTick(t, lo, step, hi)
  {
  }

  lemma NoGapInEmptyWindow(gaps: seq<Gap>, lo: int, step: int, hi: int)
    requires step > 0 && hi < lo && Separated(gaps, lo, step, hi)
    ensures gaps == []
  {
    if gaps != [] {
      NoTickInEmptyWindow(gaps[0].startTs, lo, step, hi);
      assert false;
    }
  }

  lemma WithoutLastTick(gaps: seq<Gap>, present: set<int>, lo: int, step: int, hi: int) returns (short: seq<Gap>)
    requires step > 0
    ensures ExactCover(gaps, present, lo, step, hi) ==>
      if lo <= hi then ExactCover(short, present, lo, step, hi - step) && Extend(short, present, step, hi) == gaps
      else gaps == []
  {
    short := Shorten(gaps, step, hi);
    if ExactCover(gaps, present, lo, step, hi) {
      if lo <= hi {
        ShortenCover(gaps, present, lo, step, hi);
        ShortenExtend(gaps, present, lo, step, hi);
      } else {
        NoGapInEmptyWindow(gaps, lo, step, hi);
      }
    }
  }

  /** There is only one exact cover. */
  lemma {:induction false} ExactCoverUnique(gaps: seq<Gap>, present: set<int>, lo: int, step: int, hi: int)
    requires step > 0
    ensures ExactCover(gaps, present, lo, step, hi) ==> gaps == GapsUpTo(present, lo, step, hi)
    decreases if hi < lo then 0 else hi - lo + 1
  {
    var short := WithoutLastTick(gaps, present, lo, step, hi);
    if lo <= hi {
      ExactCoverUnique(short, present, lo, step, hi - step);
    }
  }

  // ---------------------------------------------------------------------------------------------
  // Stretches without or with every candle
  // ---------------------------------------------------------------------------------------------

  /** From a point that ends no gap, a stretch without any candle adds one gap. */
  lemma {:induction false} AbsentStretch(present: set<int>, lo: int, step: int, p: int, q: int)
    requires step > 0 && IsTick(p, p, step, q) && lo <= p + step && (p in present || p < lo)
    requires forall t | p < t <= q :: t !in present
    ensures GapsUpTo(present, lo, step, q)
         == GapsUpTo(present, lo, step, p) + (if q == p then [] else [Gap(p + step, q)])
    decreases q - p
  {
    if q != p {
      AbsentStretch(present, lo, step, p, q - step);
    }
  }

  /** A stretch in which every grid point is present adds nothing. */
  lemma {:induction false} PresentStretch(present: set<int>, lo: int, step: int, p: int, q: int)
    requires step > 0 && IsTick(p, p, step, q)
    requires forall t | IsTick(t, p + step, step, q) :: t in present
    ensures GapsUpTo(present, lo, step, q) == GapsUpTo(present, lo, step, p)
    decreases q - p
  {
    if q != p {
      assert IsTick(q, p + step, step, q);
      PresentStretch(present, lo, step, p, q - step);
    }
  }

  /** Two multiples of `step` are a whole number of steps apart. */
  lemma AlignedTick(p: int, q: int, step: int)
    requires step > 0 && p % step == 0 && q % step == 0 && p <= q
    ensures IsTick(p, p, step, q) && IsTick(q, p, step, q)
    ensures p < q ==> p + step <= q && IsTick(p, p, step, q - step)
    ensures (q - step) % step == 0 && (p + step) % step == 0
  {
    DifferenceOfTicks(p, q, step);
    TickMeaning(p, p, step, q);
    if p < q { NoTickInside(q - p, step); }
    ModShift(q, -1, step);
    ModShift(p, 1, step);
  }

  ghost predicate AllAligned(s: seq<int>, step: int)
    requires step > 0
  {
    forall i | 0 <= i < |s| :: s[i] % step == 0
  }

  ghost function ToSet(s: seq<int>): set<int> {
    set t | t in s
  }

  lemma ToSetOfAppend(s: seq<int>, t: seq<int>)
    ensures ToSet(s + t) == ToSet(s) + ToSet(t)
  {
    forall x | x in ToSet(s) + ToSet(t) ensures x in s + t {}
  }

  ghost predicate NonDecreasing(s: seq<int>) {
    forall i, j | 0 <= i < j < |s| :: s[i] <= s[j]
  }

  ghost predicate Increasing(s: seq<int>) {
    forall i, j | 0 <= i < j < |s| :: s[i] < s[j]
  }

  // ---------------------------------------------------------------------------------------------
  // First program: the sorted timestamps of gap_detector.cpp
  // ---------------------------------------------------------------------------------------------

  const DAY := 24 * 60 * 60 * 1000

  function DaysToCheck(interval: string): nat {
    if interval == "1m" || interval == "5m" || interval == "15m" || interval == "30m" then 60
    else if interval == "1h" || interval == "1H" then 180
    else 0
  }

  /** Division of int64_t: rounds towards zero. */
  function TruncDiv(x: int, y: int): int
    requires y > 0
  {
    if x >= 0 then x / y else -((-x) / y)
  }

  /** `(t / step) * step` in the arithmetic of int64_t. */
  function AlignTimestamp(t: int, step: int): (r: int)
    requires step > 0
    ensures r % step == 0
  {
    ModUnique(TruncDiv(t, step), 0, step);
    TruncDiv(t, step) * step
  }

  /** The first grid point that the detector answers for. */
  function WindowStart(days: nat, step: int, first: int, now: int): int
    requires step > 0
  {
    var target := AlignTimestamp(now - days * DAY, step);
    if days > 0 && first > target then target else first
  }

  /** The last one: the last closed candle, or the last stored one when that is later. */
  function WindowEnd(step: int, last: int, now: int): int
    requires step > 0
  {
    var closed := AlignTimestamp(now, step) - step;
    if closed > last then closed else last
  }

  method KeepPositive(stored: seq<int>) returns (r: seq<int>)
    ensures ToSet(r) == set t | t in stored && t > 0
  {
    r := [];
    for i := 0 to |stored|
      invariant ToSet(r) == set t | t in ToSet(stored[..i]) && t > 0
    {
      assert stored[..i + 1] == stored[..i] + [stored[i]];
      ToSetOfAppend(stored[..i], [stored[i]]);
      ToSetOfAppend(r, [stored[i]]);
      if stored[i] > 0 { r := r + [stored[i]]; }
    }
    assert stored[..|stored|] == stored;
  }

  function Insert(t: int, s: seq<int>): seq<int> {
    if s == [] || t <= s[0] then [t] + s else [s[0]] + Insert(t, s[1..])
  }

  /** Library sort of timestamps. */
  function Sort(s: seq<int>): seq<int> {
    if s == [] then [] else Insert(s[0], Sort(s[1..]))
  }

  lemma {:induction false} InsertElements(t: int, s: seq<int>)
    ensures ToSet(Insert(t, s)) == ToSet(s) + {t} && |Insert(t, s)| == |s| + 1
  {
    if s == [] || t <= s[0] {
      ToSetOfAppend([t], s);
    } else {
      InsertElements(t, s[1..]);
      ToSetOfAppend([s[0]], Insert(t, s[1..]));
      ToSetOfAppend([s[0]], s[1..]);
      assert s == [s[0]] + s[1..];
    }
  }

  lemma {:induction false} InsertSorts(t: int, s: seq<int>)
    requires NonDecreasing(s)
    ensures NonDecreasing(Insert(t, s))
  {
    if s != [] && t > s[0] {
      var rest := Insert(t, s[1..]);
      InsertSorts(t, s[1..]);
      InsertElements(t, s[1..]);
      forall k | 0 <= k < |rest| ensures s[0] <= rest[k] {
        assert rest[k] in ToSet(rest);
      }
    }
  }

  lemma {:induction false} SortSorts(s: seq<int>)
    ensures NonDecreasing(Sort(s)) && ToSet(Sort(s)) == ToSet(s) && |Sort(s)| == |s|
  {
    if s != [] {
      SortSorts(s[1..]);
      InsertSorts(s[0], Sort(s[1..]));
      InsertElements(s[0], Sort(s[1..]));
      assert ToSet(s) == ToSet(s[1..]) + {s[0]} by { assert s == [s[0]] + s[1..]; }
    }
  }

  /** Gaps between neighbours of a sorted list, duplicates allowed. */
  method InteriorGaps(timestamps: seq<int>, step: int) returns (gaps: seq<Gap>)
    requires step > 0 && timestamps != [] && NonDecreasing(timestamps)
    ensures AllAligned(timestamps, step) ==>
      gaps == GapsUpTo(ToSet(timestamps), timestamps[0], step, timestamps[|timestamps| - 1])
  {
    gaps := [];
    ghost var present, lo := ToSet(timestamps), timestamps[0];
    assert GapsUpTo(present, lo, step, lo - step) == [];
    for i := 0 to |timestamps| - 1
      invariant AllAligned(timestamps, step) ==> gaps == GapsUpTo(present, lo, step, timestamps[i])
    {
      var expected := timestamps[i] + step;
      var next := timestamps[i + 1];
      NeighbourGap(timestamps, step, i);
      if next > expected {
        gaps := gaps + [Gap(expected, next - step)];
      }
    }
  }

  /** The step of the loop above: two neighbours have no candle between them. */
  lemma NeighbourGap(timestamps: seq<int>, step: int, i: nat)
    requires step > 0 && NonDecreasing(timestamps) && i + 1 < |timestamps|
    ensures AllAligned(timestamps, step) ==>
      var present, lo := ToSet(timestamps), timestamps[0];
      var cur, next := timestamps[i], timestamps[i + 1];
      && (next == cur || next >= cur + step)
      && GapsUpTo(present, lo, step, next) == GapsUpTo(present, lo, step, cur)
        + (if next > cur + step then [Gap(cur + step, next - step)] else [])
  {
    var present, lo := ToSet(timestamps), timestamps[0];
    var cur, next := timestamps[i], timestamps[i + 1];
    if next > cur && AllAligned(timestamps, step) {
      AlignedTick(cur, next, step);
      NothingBetween(timestamps, i);
      NextPresent(present, lo, step, cur, next);
    }
  }

  lemma NothingBetween(timestamps: seq<int>, i: nat)
    requires NonDecreasing(timestamps) && i + 1 < |timestamps|
    ensures forall t | timestamps[i] < t < timestamps[i + 1] :: t !in ToSet(timestamps)
  {
    assert forall j | 0 <= j < |timestamps| :: timestamps[j] <= timestamps[i] || timestamps[j] >= timestamps[i + 1];
  }

  lemma NextPresent(present: set<int>, lo: int, step: int, cur: int, next: int)
    requires step > 0 && lo <= cur && cur + step <= next && IsTick(cur, cur, step, next - step)
    requires cur in present && next in present && forall t | cur < t < next :: t !in present
    ensures GapsUpTo(present, lo, step, next) == GapsUpTo(present, lo, step, cur)
         + (if next > cur + step then [Gap(cur + step, next - step)] else [])
  {
    AbsentStretch(present, lo, step, cur, next - step);
  }

  /** Step 0 of the detector: the gap in front of the first candle. */
  method LeadingPart(days: nat, step: int, first: int, now: int) returns (gaps: seq<Gap>)
    requires step > 0
    ensures var lo := WindowStart(days, step, first, now);
      lo <= first && (first % step == 0 ==> lo % step == 0)
          && gaps == (if lo < first then [Gap(lo, first - step)] else [])
  {
    gaps := [];
    if days > 0 {
      var alignedStart := AlignTimestamp(now - days * DAY, step);
      if first > alignedStart {
        gaps := [Gap(alignedStart, first - step)];
      }
    }
  }

  /** Step 2 of the detector: the gap between the last candle and the current one, which is still open. */
  method TrailingPart(step: int, last: int, now: int) returns (gaps: seq<Gap>)
    requires step > 0
    ensures var hi := WindowEnd(step, last, now);
      last % step == 0 ==> hi % step == 0 && last <= hi && gaps == (if hi > last then [Gap(last + step, hi)] else [])
  {
    gaps := [];
    var alignedNow := AlignTimestamp(now, step);
    ModShift(alignedNow, -1, step);
    if alignedNow > last {
      var gap := Gap(last + step, alignedNow - step);
      if last % step == 0 { AlignedTick(last, alignedNow, step); }
      if gap.endTs >= gap.startTs {
        gaps := [gap];
      }
    }
  }

  /**
    The whole detector. `stored` are the timestamps of one sorted set in any order, with 0 for an
    entry that cannot be parsed; `now1` and `now2` are the two readings of the clock.
  */
  method DetectGaps(interval: string, stored: seq<int>, now1: int, now2: int) returns (gaps: seq<Gap>)
    ensures Positive(stored) == {} ==> gaps == []
    ensures forall first, last | IsRange(Positive(stored), first, last) ::
      (forall t | t in Positive(stored) :: t % IntervalMs(interval) == 0) ==>
        gaps == GapsUpTo(Positive(stored), WindowStart(DaysToCheck(interval), IntervalMs(interval), first, now1),
                         IntervalMs(interval), WindowEnd(IntervalMs(interval), last, now2))
  {
    var step, days := IntervalMs(interval), DaysToCheck(interval);
    gaps := [];
    var kept := KeepPositive(stored);
    if kept != [] {
      gaps := DetectGapsOf(kept, days, step, now1, now2);
      assert kept[0] in ToSet(kept);
    } else {
      assert ToSet(kept) == {};
    }
  }

  method DetectGapsOf(kept: seq<int>, days: nat, step: int, now1: int, now2: int) returns (gaps: seq<Gap>)
    requires kept != [] && step > 0
    ensures forall first, last | IsRange(ToSet(kept), first, last) ::
      (forall t | t in ToSet(kept) :: t % step == 0) ==>
        gaps == GapsUpTo(ToSet(kept), WindowStart(days, step, first, now1), step, WindowEnd(step, last, now2))
  {
    var timestamps := Sort(kept);
    SortSorts(kept);
    var firstTs, lastTs := timestamps[0], timestamps[|timestamps| - 1];
    var leading := LeadingPart(days, step, firstTs, now1);
    var interior := InteriorGaps(timestamps, step);
    var trailing := TrailingPart(step, lastTs, now2);
    gaps := leading + interior + trailing;
    EndsAreRange(timestamps, ToSet(kept));
    if forall t | t in ToSet(kept) :: t % step == 0 {
      AlignedRange(timestamps, step, ToSet(kept));
      ThreePartGaps(
        ToSet(kept), WindowStart(days, step, firstTs, now1), step, firstTs, lastTs, WindowEnd(step, lastTs, now2));
    }
  }

  ghost function Positive(stored: seq<int>): set<int> {
    set t | t in stored && t > 0
  }

  ghost predicate IsRange(present: set<int>, first: int, last: int) {
    first in present && last in present && forall t | t in present :: first <= t <= last
  }

  /** A sorted list spans the range of its elements, and there is only one range. */
  lemma EndsAreRange(timestamps: seq<int>, present: set<int>)
    requires timestamps != [] && NonDecreasing(timestamps) && present == ToSet(timestamps)
    ensures IsRange(present, timestamps[0], timestamps[|timestamps| - 1])
    ensures forall first, last | IsRange(present, first, last) ::
      first == timestamps[0] && last == timestamps[|timestamps| - 1]
  {
    assert timestamps[0] in present && timestamps[|timestamps| - 1] in present;
  }

  lemma AlignedRange(timestamps: seq<int>, step: int, present: set<int>)
    requires step > 0 && present == ToSet(timestamps) && forall t | t in present :: t % step == 0
    ensures AllAligned(timestamps, step)
  {
    assert forall i | 0 <= i < |timestamps| :: timestamps[i] in present;
  }

  lemma ThreePartGaps(present: set<int>, lo: int, step: int, first: int, last: int, hi: int)
    requires step > 0 && lo % step == 0 && hi % step == 0 && first % step == 0 && last % step == 0
    requires lo <= first && last <= hi && IsRange(present, first, last)
    ensures GapsUpTo(present, lo, step, hi)
         == (if lo < first then [Gap(lo, first - step)] else [])
          + GapsUpTo(present, first, step, last)
          + (if hi > last then [Gap(last + step, hi)] else [])
  {
    AlignedTick(last, hi, step);
    AbsentStretch(present, lo, step, last, hi);
    AlignedTick(first, last, step);
    FrontGap(present, lo, step, first);
    LeadingGap(present, lo, step, first, last);
  }

  /** Up to the first candle there is one gap, in front of it. */
  lemma FrontGap(present: set<int>, lo: int, step: int, first: int)
    requires step > 0 && lo % step == 0 && first % step == 0 && lo <= first
    requires first in present && forall t | t in present :: first <= t
    ensures GapsUpTo(present, lo, step, first) == if lo < first then [Gap(lo, first - step)] else []
  {
    AlignedBefore(lo, first, step);
    AbsentFront(present, lo, step, first);
  }

  lemma AlignedBefore(p: int, q: int, step: int)
    requires step > 0 && p % step == 0 && q % step == 0 && p <= q
    ensures IsTick(p - step, p - step, step, q - step)
    ensures p < q ==> p + step <= q
  {
    DifferenceOfTicks(p, q, step);
    TickMeaning(p - step, p - step, step, q - step);
    if p < q { NoTickInside(q - p, step); }
  }

  lemma AbsentFront(present: set<int>, lo: int, step: int, first: int)
    requires step > 0 && lo <= first && IsTick(lo - step, lo - step, step, first - step)
    requires lo < first ==> lo + step <= first
    requires first in present && forall t | t in present :: first <= t
    ensures GapsUpTo(present, lo, step, first) == if lo < first then [Gap(lo, first - step)] else []
  {
    AbsentStretch(present, lo, step, lo - step, first - step);
  }

  /** What lies in front of the first candle does not change the gaps behind it. */
  lemma {:induction false} LeadingGap(present: set<int>, lo: int, step: int, first: int, hi: int)
    requires step > 0 && lo <= first && first in present && IsTick(first, first, step, hi)
    ensures GapsUpTo(present, lo, step, hi) == GapsUpTo(present, lo, step, first) + GapsUpTo(present, first, step, hi)
    decreases hi - first
  {
    if hi == first {
      assert GapsUpTo(present, first, step, first - step) == [];
    } else {
      LeadingGap(present, lo, step, first, hi - step);
      ExtendBehind(GapsUpTo(present, lo, step, first), GapsUpTo(present, first, step, hi - step), present, step, hi);
    }
  }

  lemma ExtendBehind(front: seq<Gap>, behind: seq<Gap>, present: set<int>, step: int, t: int)
    requires front != [] ==> front[|front| - 1].endTs < t - step
    ensures Extend(front + behind, present, step, t) == front + Extend(behind, present, step, t)
  {
    if behind != [] {
      var all := front + behind;
      assert all[..|all| - 1] == front + behind[..|behind| - 1];
    }
  }

  // ---------------------------------------------------------------------------------------------
  // Second program: the membership scan of fast_kline_filler.py
  // ---------------------------------------------------------------------------------------------

  /** `existing` are the scores found in [start, end]. */
  method ScanGaps(existing: set<int>, start: int, end: int, step: int) returns (gaps: seq<Gap>)
    requires step > 0
    requires forall t | t in existing :: start <= t <= end
    ensures start <= end && (end - start) % step == 0 ==> gaps == GapsUpTo(existing, start, step, end)
    ensures start <= end ==>
      gaps == Stretch(GapsUpTo(existing, start, step, LastTick(start, end, step)), LastTick(start, end, step), end)
    ensures start > end ==> gaps == [Gap(start, end)]
  {
    NothingInEmptyRange(existing, start, end);
    if start <= end { LastTickMeaning(start, end, step); }
    if existing == {} {
      if start <= end { WholeWindowMissing(existing, start, step, LastTick(start, end, step)); }
      gaps := [Gap(start, end)];
    } else {
      gaps := ScanWindow(existing, start, end, step, LastTick(start, end, step));
    }
  }

  /** The last grid point from `start` that is not behind `end`. */
  function LastTick(start: int, end: int, step: int): int
    requires step > 0
  {
    start + (end - start) / step * step
  }

  /** A last gap that reaches the last grid point is reported up to the end of the window. */
  function Stretch(gaps: seq<Gap>, tick: int, end: int): seq<Gap> {
    if gaps != [] && gaps[|gaps| - 1].endTs == tick
    then gaps[..|gaps| - 1] + [Gap(gaps[|gaps| - 1].startTs, end)]
    else gaps
  }

  lemma LastTickMeaning(start: int, end: int, step: int)
    requires step > 0
    ensures var tick := LastTick(start, end, step);
      && tick <= end < tick + step && (tick - start) % step == 0
      && (start <= end ==> start <= tick && IsTick(start, start, step, tick))
      && (start > end ==> tick < start)
      && ((end - start) % step == 0 ==> tick == end)
  {
    var d := end - start;
    assert d == d / step * step + d % step;
    ModUnique(d / step, 0, step);
    if d >= 0 {
      if d / step < 0 { MulAtLeast(-(d / step), step); }
      TickMeaning(start, start, step, LastTick(start, end, step));
    }
  }

  lemma NothingInEmptyRange(existing: set<int>, start: int, end: int)
    requires forall t | t in existing :: start <= t <= end
    ensures start > end ==> existing == {}
  {
    if start > end { assert forall t :: t !in existing; }
  }

  method ScanWindow(existing: set<int>, start: int, end: int, step: int, ghost tick: int) returns (gaps: seq<Gap>)
    requires step > 0 && start <= tick <= end < tick + step && IsTick(start, start, step, tick)
    ensures gaps == Stretch(GapsUpTo(existing, start, step, tick), tick, end)
  {
    gaps := [];
    var open, gapStart := false, 0;
    var ts := start;
    while ts <= end
      invariant ts - step == tick || IsTick(ts, ts, step, tick)
      invariant ScanState(existing, start, step, ts, gaps, open, gapStart)
      decreases end - ts
    {
      NextTick(ts, step, tick);
      ScanStep(existing, start, step, ts, gaps, open, gapStart);
      if ts !in existing {
        if !open { open, gapStart := true, ts; }
      } else if open {
        gaps := gaps + [Gap(gapStart, ts - step)];
        open := false;
      }
      ts := ts + step;
    }
    ScanEnd(existing, start, step, tick, end, gaps, open, gapStart);
    if open {
      gaps := gaps + [Gap(gapStart, end)];
    }
  }

  lemma ScanEnd(
    existing: set<int>, start: int, step: int, tick: int, end: int, gaps: seq<Gap>, open: bool, gapStart: int)
    requires step > 0 && ScanState(existing, start, step, tick + step, gaps, open, gapStart)
    ensures Stretch(GapsUpTo(existing, start, step, tick), tick, end)
         == gaps + (if open then [Gap(gapStart, end)] else [])
  {
    if open { assert (gaps + [Gap(gapStart, tick)])[..|gaps|] == gaps; }
  }

  /** What the scan knows before it looks at `ts`: the gaps so far, the last of which may still be open. */
  ghost predicate ScanState(existing: set<int>, start: int, step: int, ts: int, gaps: seq<Gap>, open: bool,
      gapStart: int)
    requires step > 0
  {
    && start <= ts
    && GapsUpTo(existing, start, step, ts - step) == gaps + (if open then [Gap(gapStart, ts - step)] else [])
    && (!open && gaps != [] ==> gaps[|gaps| - 1].endTs < ts - step)
  }

  /** One grid point more. */
  lemma ScanStep(existing: set<int>, start: int, step: int, ts: int, gaps: seq<Gap>, open: bool, gapStart: int)
    requires step > 0 && ScanState(existing, start, step, ts, gaps, open, gapStart)
    ensures ts !in existing ==>
      ScanState(existing, start, step, ts + step, gaps, true, if open then gapStart else ts)
    ensures ts in existing ==>
      ScanState(existing, start, step, ts + step,
                if open then gaps + [Gap(gapStart, ts - step)] else gaps, false, gapStart)
  {
    assert GapsUpTo(existing, start, step, ts)
      == Extend(GapsUpTo(existing, start, step, ts - step), existing, step, ts);
  }

  lemma {:induction false} NextTick(t: int, step: int, end: int)
    requires step > 0
    ensures IsTick(t, t, step, end) ==> t == end || IsTick(t + step, t + step, step, end)
    decreases if end < t then 0 else end - t + 1
  {
    if t <= end { NextTick(t, step, end - step); }
  }

  lemma WholeWindowMissing(present: set<int>, lo: int, step: int, hi: int)
    requires step > 0 && present == {} && lo <= hi && IsTick(lo, lo, step, hi)
    ensures GapsUpTo(present, lo, step, hi) == [Gap(lo, hi)]
    decreases hi - lo
  {
    if lo < hi { WholeWindowMissing(present, lo, step, hi - step); }
    else { assert GapsUpTo(present, lo, step, hi - step) == []; }
  }

  // ---------------------------------------------------------------------------------------------
  // Third program: merging the missing points, from preload_klines_to_redis.py
  // ---------------------------------------------------------------------------------------------

  method GridPoints(start: int, end: int, step: int) returns (r: seq<int>)
    requires step > 0
    ensures Increasing(r)
    ensures forall t :: t in r <==> IsTick(t, start, step, LastTick(start, end, step))
  {
    r := [];
    var t := start;
    ghost var tick := LastTick(start, end, step);
    LastTickMeaning(start, end, step);
    while t <= end
      invariant Increasing(r) && forall i | 0 <= i < |r| :: r[i] < t
      invariant start <= end ==> t - step == tick || IsTick(t, t, step, tick)
      invariant forall x :: x in r <==> IsTick(x, start, step, t - step)
      invariant start <= t && (start > end ==> t == start)
      decreases end - t
    {
      NextTick(t, step, tick);
      r := r + [t];
      t := t + step;
    }
  }

  /** The sorted difference of the expected and the existing timestamps. */
  method MissingPoints(existing: set<int>, start: int, end: int, step: int) returns (missing: seq<int>)
    requires step > 0
    ensures Increasing(missing)
    ensures forall t :: t in missing <==> IsTick(t, start, step, LastTick(start, end, step)) && t !in existing
  {
    var expected := GridPoints(start, end, step);
    missing := [];
    for i := 0 to |expected|
      invariant Increasing(missing)
      invariant forall k | 0 <= k < |missing| && i < |expected| :: missing[k] < expected[i]
      invariant forall t :: t in missing <==> t in expected[..i] && t !in existing
    {
      if expected[i] !in existing { missing := missing + [expected[i]]; }
    }
    assert expected[..|expected|] == expected;
  }

  /** For any window: its start need not be a whole number of steps before its end. */
  method MergeMissing(existing: set<int>, start: int, end: int, step: int) returns (gaps: seq<Gap>)
    requires step > 0
    ensures gaps == GapsUpTo(existing, start, step, LastTick(start, end, step))
  {
    var missing := MissingPoints(existing, start, end, step);
    ghost var tick := LastTick(start, end, step);
    LastTickMeaning(start, end, step);
    if missing == [] {
      if start <= end { NoMissingBetween(existing, missing, start, step, tick, start - step, tick); }
      gaps := [];
    } else {
      assert IsTick(missing[0], start, step, tick) by { assert missing[0] in missing; }
      gaps := MergeRuns(existing, start, tick, step, missing);
    }
  }

  method MergeRuns(ghost existing: set<int>, ghost start: int, ghost end: int, step: int, missing: seq<int>)
      returns (gaps: seq<Gap>)
    requires step > 0 && start <= end && (end - start) % step == 0
    requires missing != [] && Increasing(missing)
    requires forall t :: t in missing <==> IsTick(t, start, step, end) && t !in existing
    ensures gaps == GapsUpTo(existing, start, step, end)
  {
    gaps := [];
    var gapStart, gapEnd := missing[0], missing[0];
    NoMissingBetween(existing, missing, start, step, end, start - step, gapEnd - step);
    for i := 1 to |missing|
      invariant gapEnd == missing[i - 1]
      invariant GapsUpTo(existing, start, step, gapEnd) == gaps + [Gap(gapStart, gapEnd)]
    {
      var ts := missing[i];
      MergeStep(existing, missing, start, step, end, gaps, gapStart, i);
      if 2 * (ts - gapEnd) <= 3 * step {   // ts - gap_end <= 1.5 * interval
        gapEnd := ts;
      } else {
        gaps := gaps + [Gap(gapStart, gapEnd)];
        gapStart, gapEnd := ts, ts;
      }
    }
    NoMissingBetween(existing, missing, start, step, end, gapEnd, end);
    gaps := gaps + [Gap(gapStart, gapEnd)];
  }

  lemma MergeStep(existing: set<int>, missing: seq<int>, start: int, step: int, end: int, gaps: seq<Gap>,
      gapStart: int, i: nat)
    requires step > 0 && start <= end && (end - start) % step == 0
    requires 1 <= i < |missing| && Increasing(missing)
    requires forall t :: t in missing <==> IsTick(t, start, step, end) && t !in existing
    requires GapsUpTo(existing, start, step, missing[i - 1]) == gaps + [Gap(gapStart, missing[i - 1])]
    ensures var gapEnd, ts := missing[i - 1], missing[i];
      GapsUpTo(existing, start, step, ts) ==
        if 2 * (ts - gapEnd) <= 3 * step then gaps + [Gap(gapStart, ts)]
        else gaps + [Gap(gapStart, gapEnd)] + [Gap(ts, ts)]
  {
    var gapEnd, ts := missing[i - 1], missing[i];
    NoMissingBetween(existing, missing, start, step, end, gapEnd, ts - step);
    assert ts in missing && gapEnd in missing;
    NextMissing(gapEnd, ts, start, step, end);
    ExtendOpen(gaps, gapStart, gapEnd, existing, step, ts);
  }

  lemma NextMissing(p: int, q: int, start: int, step: int, end: int)
    requires step > 0 && (end - start) % step == 0
    requires IsTick(p, start, step, end) && IsTick(q, start, step, end) && p < q
    ensures q == p + step || q >= p + 2 * step
  {
    TickMeaning(p, start, step, end);
    TickMeaning(q, start, step, end);
    DifferenceOfTicks(p - start, q - start, step);
    ModShift(q - p, -1, step);
    NoTickInside(q - p, step);
    if q - p - step > 0 { NoTickInside(q - p - step, step); }
  }

  lemma ExtendOpen(gaps: seq<Gap>, gapStart: int, gapEnd: int, present: set<int>, step: int, t: int)
    requires t !in present
    ensures Extend(gaps + [Gap(gapStart, gapEnd)], present, step, t)
         == if gapEnd == t - step then gaps + [Gap(gapStart, t)] else gaps + [Gap(gapStart, gapEnd)] + [Gap(t, t)]
  {
    assert (gaps + [Gap(gapStart, gapEnd)])[..|gaps|] == gaps;
  }

  /**
    Between two neighbouring missing points, in front of the first and behind the last one, every grid point is
    present.
  */
  lemma NoMissingBetween(existing: set<int>, missing: seq<int>, start: int, step: int, end: int, p: int, q: int)
    requires step > 0 && start <= end && (end - start) % step == 0
    requires forall t :: t in missing <==> IsTick(t, start, step, end) && t !in existing
    requires p == start - step || IsTick(p, start, step, end)
    requires q == end || IsTick(q + step, start, step, end)
    requires p < q + step && forall t | t in missing :: !(p < t <= q)
    ensures p <= q && GapsUpTo(existing, start, step, q) == GapsUpTo(existing, start, step, p)
  {
    TickMeaning(p, start, step, end);
    TickMeaning(q + step, start, step, end);
    ModShift(p - start, 1, step);
    ModShift(q - start, 1, step);
    ModUnique(0, 0, step);
    DifferenceOfTicks(p - start, q - start, step);
    ModShift(q - p, 1, step);
    NoTickInside(q + step - p, step);
    TickMeaning(p, p, step, q);
    forall t | IsTick(t, p + step, step, q)
      ensures t in existing
    {
      TickInWindow(t, p, start, step, q, end);
      assert t !in missing;
    }
    PresentStretch(existing, start, step, p, q);
  }

  lemma TickInWindow(t: int, p: int, start: int, step: int, q: int, end: int)
    requires step > 0 && (end - start) % step == 0 && (p - start) % step == 0 && (q - p) % step == 0
    requires start - step <= p <= q <= end && IsTick(t, p + step, step, q)
    ensures IsTick(t, start, step, end)
  {
    ModShift(q - p, -1, step);
    TickMeaning(t, p + step, step, q);
    ModShift(t - p, -1, step);
    DifferenceOfTicks(p - start, t - p, step);
    assert (p - start) + (t - p) == t - start;
    TickMeaning(t, start, step, end);
  }

  // ---------------------------------------------------------------------------------------------
  // Where the programs differ
  // ---------------------------------------------------------------------------------------------

  /**
    check_continuity of auto_kline_monitor_v2.py reports a gap whenever two neighbours are not exactly one
    step apart. On aligned timestamps it agrees with the other three exactly when no timestamp occurs twice:
    a repeated one gives a gap that ends before it starts.
  */
  method CheckContinuity(timestamps: seq<int>, step: int) returns (gaps: seq<Gap>)
    requires step > 0 && timestamps != [] && NonDecreasing(timestamps)
    ensures AllAligned(timestamps, step) ==>
      (gaps == GapsUpTo(ToSet(timestamps), timestamps[0], step, timestamps[|timestamps| - 1]) <==>
          Increasing(timestamps))
  {
    gaps := [];
    ghost var present, lo := ToSet(timestamps), timestamps[0];
    assert GapsUpTo(present, lo, step, lo - step) == [];
    for i := 1 to |timestamps|
      invariant AllAligned(timestamps, step) && Increasing(timestamps) ==>
        gaps == GapsUpTo(present, lo, step, timestamps[i - 1])
      invariant HasRepeat(timestamps[..i]) ==> HasReversed(gaps)
    {
      var expected := timestamps[i - 1] + step;
      NeighbourGap(timestamps, step, i - 1);
      RepeatAt(timestamps, i);
      if timestamps[i] != expected {
        ReversedMore(gaps, Gap(expected, timestamps[i] - step));
        gaps := gaps + [Gap(expected, timestamps[i] - step)];
      }
    }
    assert timestamps[..|timestamps|] == timestamps;
    if !Increasing(timestamps) {
      RepeatedNeighbour(timestamps);
      NoReversedGap(present, lo, step, timestamps[|timestamps| - 1]);
    }
  }

  /** Two neighbours are equal. */
  ghost predicate HasRepeat(s: seq<int>) {
    exists k | 1 <= k < |s| :: s[k - 1] == s[k]
  }

  ghost predicate HasReversed(gaps: seq<Gap>) {
    exists i | 0 <= i < |gaps| :: gaps[i].startTs > gaps[i].endTs
  }

  lemma RepeatAt(s: seq<int>, i: nat)
    requires 1 <= i < |s|
    ensures HasRepeat(s[..i + 1]) ==> HasRepeat(s[..i]) || s[i - 1] == s[i]
  {
    if HasRepeat(s[..i + 1]) && s[i - 1] != s[i] {
      var k :| 1 <= k < i + 1 && s[..i + 1][k - 1] == s[..i + 1][k];
      assert s[..i][k - 1] == s[..i][k];
    }
  }

  lemma ReversedMore(gaps: seq<Gap>, g: Gap)
    ensures HasReversed(gaps) || g.startTs > g.endTs ==> HasReversed(gaps + [g])
  {
    if g.startTs > g.endTs { assert (gaps + [g])[|gaps|] == g; }
    if HasReversed(gaps) {
      var i :| 0 <= i < |gaps| && gaps[i].startTs > gaps[i].endTs;
      assert (gaps + [g])[i] == gaps[i];
    }
  }

  lemma NoReversedGap(present: set<int>, lo: int, step: int, hi: int)
    requires step > 0
    ensures !HasReversed(GapsUpTo(present, lo, step, hi))
  {
    GapsAreExactCover(present, lo, step, hi);
  }

  lemma RepeatedNeighbour(s: seq<int>)
    requires NonDecreasing(s) && !Increasing(s)
    ensures HasRepeat(s)
  {
    var i, j :| 0 <= i < j < |s| && !(s[i] < s[j]);
    assert s[i] <= s[i + 1] <= s[j];
    assert s[(i + 1) - 1] == s[i + 1];
  }
}
