/**
  Building coarser bars from one-minute candles: the slice form of auto_kline_monitor_v2.py, the incremental
  fold of preload_klines_to_redis.py, and the grouping of fast_kline_filler.py.
*/
module Aggregation {
  import opened Klines
  import GapDetection

  // ---------------------------------------------------------------------------------------------
  // One bar
  // ---------------------------------------------------------------------------------------------

  function Max(x: real, y: real): real {
    if x >= y then x else y
  }

  function Min(x: real, y: real): real {
    if x <= y then x else y
  }

  function MaxHigh(bars: seq<Kline>): real
    requires bars != []
  {
    if |bars| == 1 then bars[0].high else Max(MaxHigh(bars[..|bars| - 1]), bars[|bars| - 1].high)
  }

  function MinLow(bars: seq<Kline>): real
    requires bars != []
  {
    if |bars| == 1 then bars[0].low else Min(MinLow(bars[..|bars| - 1]), bars[|bars| - 1].low)
  }

  function SumVolume(bars: seq<Kline>): real {
    if bars == [] then 0.0 else SumVolume(bars[..|bars| - 1]) + bars[|bars| - 1].volume
  }

  /** First open, highest high, lowest low, last close, total volume. */
  function Bar(t: int, bars: seq<Kline>): Kline
    requires bars != []
  {
    Kline(t, bars[0].open, MaxHigh(bars), MinLow(bars), bars[|bars| - 1].close, SumVolume(bars))
  }

  /** A candle whose range contains its opening and closing price. */
  ghost predicate Sane(k: Kline) {
    k.low <= k.open <= k.high && k.low <= k.close <= k.high
  }

  lemma {:induction false} HighIsMaximum(bars: seq<Kline>)
    requires bars != []
    ensures (forall b | b in bars :: b.high <= MaxHigh(bars)) && exists b | b in bars :: b.high == MaxHigh(bars)
  {
    if |bars| > 1 {
      var front, last := bars[..|bars| - 1], bars[|bars| - 1];
      HighIsMaximum(front);
      assert bars == front + [last];
      var b :| b in front && b.high == MaxHigh(front);
      assert b in bars && last in bars;
    } else {
      assert bars[0] in bars;
    }
  }

  lemma {:induction false} LowIsMinimum(bars: seq<Kline>)
    requires bars != []
    ensures (forall b | b in bars :: MinLow(bars) <= b.low) && exists b | b in bars :: b.low == MinLow(bars)
  {
    if |bars| > 1 {
      var front, last := bars[..|bars| - 1], bars[|bars| - 1];
      LowIsMinimum(front);
      assert bars == front + [last];
      var b :| b in front && b.low == MinLow(front);
      assert b in bars && last in bars;
    } else {
      assert bars[0] in bars;
    }
  }

  /** A bar of sane candles is sane. */
  lemma BarIsSane(t: int, bars: seq<Kline>)
    requires bars != [] && forall b | b in bars :: Sane(b)
    ensures Sane(Bar(t, bars))
  {
    HighIsMaximum(bars);
    LowIsMinimum(bars);
    var first, last := bars[0], bars[|bars| - 1];
    assert first in bars && last in bars;
    assert Sane(first) && Sane(last);
  }

  // ---------------------------------------------------------------------------------------------
  // Aggregating in two stages
  // ---------------------------------------------------------------------------------------------

  /** What one more bar does to a bar built so far. */
  function Merge(a: Kline, b: Kline): Kline {
    Kline(a.timestamp, a.open, Max(a.high, b.high), Min(a.low, b.low), b.close, a.volume + b.volume)
  }

  lemma BarOfAppend(t: int, a: seq<Kline>, b: seq<Kline>, u: int)
    requires a != [] && b != []
    ensures Bar(t, a + b) == Merge(Bar(t, a), Bar(u, b))
  {
    HighOfAppend(a, b);
    LowOfAppend(a, b);
    VolumeOfAppend(a, b);
  }

  lemma {:induction false} HighOfAppend(a: seq<Kline>, b: seq<Kline>)
    requires a != [] && b != []
    ensures MaxHigh(a + b) == Max(MaxHigh(a), MaxHigh(b))
  {
    assert (a + b)[..|a + b| - 1] == a + b[..|b| - 1];
    if |b| == 1 { assert a + b[..0] == a; } else { HighOfAppend(a, b[..|b| - 1]); }
  }

  lemma {:induction false} LowOfAppend(a: seq<Kline>, b: seq<Kline>)
    requires a != [] && b != []
    ensures MinLow(a + b) == Min(MinLow(a), MinLow(b))
  {
    assert (a + b)[..|a + b| - 1] == a + b[..|b| - 1];
    if |b| == 1 { assert a + b[..0] == a; } else { LowOfAppend(a, b[..|b| - 1]); }
  }

  lemma {:induction false} VolumeOfAppend(a: seq<Kline>, b: seq<Kline>)
    ensures SumVolume(a + b) == SumVolume(a) + SumVolume(b)
  {
    if b == [] {
      assert a + b == a;
    } else {
      assert (a + b)[..|a + b| - 1] == a + b[..|b| - 1];
      VolumeOfAppend(a, b[..|b| - 1]);
    }
  }

  ghost predicate NoneEmpty(groups: seq<seq<Kline>>) {
    forall i | 0 <= i < |groups| :: groups[i] != []
  }

  function Flatten(groups: seq<seq<Kline>>): seq<Kline> {
    if groups == [] then [] else Flatten(groups[..|groups| - 1]) + groups[|groups| - 1]
  }

  /** One bar per group, each with a timestamp of its own. */
  ghost function Bars(groups: seq<seq<Kline>>, times: seq<int>): seq<Kline>
    requires |groups| == |times| && NoneEmpty(groups)
  {
    if groups == [] then []
    else Bars(groups[..|groups| - 1], times[..|groups| - 1]) + [Bar(times[|groups| - 1], groups[|groups| - 1])]
  }

  lemma {:induction false} BarsLength(groups: seq<seq<Kline>>, times: seq<int>)
    requires |groups| == |times| && NoneEmpty(groups)
    ensures |Bars(groups, times)| == |groups|
    ensures groups != [] ==> Flatten(groups) != []
  {
    if groups != [] {
      BarsLength(groups[..|groups| - 1], times[..|groups| - 1]);
    }
  }

  lemma BarOfOne(t: int, k: Kline)
    ensures Bar(t, [k]) == k.(timestamp := t)
  {
    assert SumVolume([k]) == SumVolume([k][..0]) + k.volume;
    assert [k][..0] == [] && SumVolume([]) == 0.0;
  }

  /** The bar of the bars of consecutive groups is the bar of all their candles. */
  lemma {:induction false} BarOfBars(t: int, groups: seq<seq<Kline>>, times: seq<int>)
    requires |groups| == |times| && groups != [] && NoneEmpty(groups)
    ensures Bars(groups, times) != [] && Flatten(groups) != []
    ensures Bar(t, Bars(groups, times)) == Bar(t, Flatten(groups))
  {
    BarsLength(groups, times);
    var k := |groups| - 1;
    var front, last, lastBar := groups[..k], groups[k], Bar(times[k], groups[k]);
    BarOfOne(t, lastBar);
    if front == [] {
      assert Bars(groups, times) == [lastBar] && Flatten(groups) == last;
    } else {
      BarOfBars(t, front, times[..k]);
      BarOfAppend(t, Bars(front, times[..k]), [lastBar], t);
      BarOfAppend(t, Flatten(front), last, t);
    }
  }

  /** The groups of `size` consecutive candles. */
  ghost function Chunks(minutes: seq<Kline>, size: nat, count: nat): (groups: seq<seq<Kline>>)
    requires size > 0 && |minutes| == size * count
    ensures |groups| == count && forall i | 0 <= i < count :: |groups[i]| == size
  {
    if count == 0 then []
    else
      var cut := |minutes| - size;
      assert size * count == size * (count - 1) + size;
      Chunks(minutes[..cut], size, count - 1) + [minutes[cut..]]
  }

  lemma {:induction false} FlattenChunks(minutes: seq<Kline>, size: nat, count: nat)
    requires size > 0 && |minutes| == size * count
    ensures Flatten(Chunks(minutes, size, count)) == minutes
  {
    if count > 0 {
      var cut := |minutes| - size;
      assert size * count == size * (count - 1) + size;
      FlattenChunks(minutes[..cut], size, count - 1);
      FlattenSnoc(Chunks(minutes[..cut], size, count - 1), minutes[cut..]);
    }
  }

  lemma FlattenSnoc(groups: seq<seq<Kline>>, g: seq<Kline>)
    ensures Flatten(groups + [g]) == Flatten(groups) + g
  {
    assert (groups + [g])[..|groups|] == groups;
  }

  /**
    Two stages give the same bar as one: five-minute bars into a quarter of an hour (size 5, count 3), four-hour
    bars into eight hours (size 240, count 2), for any sizes.
  */
  lemma TwoStages(t: int, minutes: seq<Kline>, size: nat, count: nat, times: seq<int>)
    requires size > 0 && count > 0 && |minutes| == size * count && |times| == count
    ensures minutes != []
    ensures var coarse := Bars(Chunks(minutes, size, count), times); coarse != [] && Bar(t, coarse) == Bar(t, minutes)
  {
    FlattenChunks(minutes, size, count);
    BarOfBars(t, Chunks(minutes, size, count), times);
  }

  // ---------------------------------------------------------------------------------------------
  // Groups on the grid of the coarser interval
  // ---------------------------------------------------------------------------------------------

  /** `(t // width) * width` */
  function AlignDown(t: int, width: int): int
    requires width > 0
  {
    t / width * width
  }

  lemma AlignDownMeaning(t: int, width: int)
    requires width > 0
    ensures AlignDown(t, width) <= t < AlignDown(t, width) + width
  {
    assert t == t / width * width + t % width;
  }

  lemma AlignDownOnGrid(t: int, width: int)
    requires width > 0
    ensures AlignDown(t, width) % width == 0
  {
    GapDetection.ModUnique(t / width, 0, width);
  }

  /** The candles that fall into the bar starting at `a`, in order. */
  function GroupOf(ks: seq<Kline>, a: int, width: int): seq<Kline>
    requires width > 0
  {
    if ks == [] then []
    else
      var front, k := GroupOf(ks[..|ks| - 1], a, width), ks[|ks| - 1];
      if AlignDown(k.timestamp, width) == a then front + [k] else front
  }

  lemma {:induction false} GroupOfMeaning(ks: seq<Kline>, a: int, width: int)
    requires width > 0
    ensures forall k :: k in GroupOf(ks, a, width) <==> k in ks && AlignDown(k.timestamp, width) == a
  {
    if ks != [] {
      GroupOfMeaning(ks[..|ks| - 1], a, width);
      assert ks == ks[..|ks| - 1] + [ks[|ks| - 1]];
    }
  }

  lemma {:induction false} GroupOfAscending(ks: seq<Kline>, a: int, width: int)
    requires width > 0 && Ascending(ks)
    ensures Ascending(GroupOf(ks, a, width))
  {
    if ks != [] {
      var front := ks[..|ks| - 1];
      GroupOfAscending(front, a, width);
      GroupOfMeaning(front, a, width);
      var g := GroupOf(front, a, width);
      forall i | 0 <= i < |g| ensures g[i].timestamp < ks[|ks| - 1].timestamp {
        assert g[i] in front;
      }
    }
  }

  /** Candle i of the list opens i minutes after `a`. */
  ghost predicate ConsecutiveMinutes(g: seq<Kline>, a: int) {
    forall i | 0 <= i < |g| :: g[i].timestamp == a + i * MINUTE_MS
  }

  /**
    The pigeonhole: minute candles inside a range of n minutes, strictly ascending, are at most n, and n of
    them are all the minutes of the range.
  */
  lemma FullGroup(g: seq<Kline>, a: int, n: nat)
    requires Ascending(g) && MinuteAligned(a)
    requires forall i | 0 <= i < |g| :: MinuteAligned(g[i].timestamp) && a <= g[i].timestamp < a + n * MINUTE_MS
    ensures |g| <= n
    ensures |g| == n ==> ConsecutiveMinutes(g, a)
  {
    if g != [] {
      NotEarlier(g, a, |g| - 1);
      if |g| == n {
        forall i | 0 <= i < |g| ensures g[i].timestamp == a + i * MINUTE_MS {
          NotEarlier(g, a, i);
          NotLater(g, a, n, i);
        }
      }
    }
  }

  lemma {:induction false} NotEarlier(g: seq<Kline>, a: int, i: nat)
    requires Ascending(g) && i < |g| && MinuteAligned(a)
    requires forall i | 0 <= i < |g| :: MinuteAligned(g[i].timestamp) && a <= g[i].timestamp
    ensures g[i].timestamp >= a + i * MINUTE_MS
  {
    if i > 0 { NotEarlier(g, a, i - 1); }
  }

  lemma {:induction false} NotLater(g: seq<Kline>, a: int, n: nat, i: nat)
    requires Ascending(g) && i < |g| == n && MinuteAligned(a)
    requires forall i | 0 <= i < |g| :: MinuteAligned(g[i].timestamp) && g[i].timestamp < a + n * MINUTE_MS
    ensures g[i].timestamp <= a + i * MINUTE_MS
    decreases n - i
  {
    if i < n - 1 { NotLater(g, a, n, i + 1); }
  }

  // ---------------------------------------------------------------------------------------------
  // The slice form
  // ---------------------------------------------------------------------------------------------

  /** aggregate_klines: None when there are too few candles, otherwise the bar of the first `multiplier`. */
  function AggregateSlice(bars: seq<Kline>, multiplier: nat, alignedTs: int): Option<Kline>
    requires multiplier > 0
  {
    if bars == [] || |bars| < multiplier then None
    else Some(Bar(alignedTs, bars[..multiplier]))
  }

  /** The slice form, value by value: it exists with enough candles, and looks at the first `multiplier` only. */
  lemma SliceMeaning(bars: seq<Kline>, multiplier: nat, alignedTs: int)
    requires multiplier > 0
    ensures var r := AggregateSlice(bars, multiplier, alignedTs);
      && (r.Some? <==> |bars| >= multiplier)
      && (r.Some? ==>
            && r.value.timestamp == alignedTs
            && r.value.open == bars[0].open && r.value.close == bars[multiplier - 1].close
            && (forall i | 0 <= i < multiplier :: r.value.low <= bars[i].low && bars[i].high <= r.value.high)
            && (exists i | 0 <= i < multiplier :: bars[i].high == r.value.high)
            && (exists i | 0 <= i < multiplier :: bars[i].low == r.value.low))
  {
    if |bars| >= multiplier {
      var head := bars[..multiplier];
      HighIsMaximum(head);
      LowIsMinimum(head);
      assert forall i | 0 <= i < multiplier :: head[i] == bars[i] && head[i] in head;
      var h :| h in head && h.high == MaxHigh(head);
      var i :| 0 <= i < |head| && head[i] == h;
      assert bars[i].high == MaxHigh(head);
      var l :| l in head && l.low == MinLow(head);
      var k :| 0 <= k < |head| && head[k] == l;
      assert bars[k].low == MinLow(head);
    }
  }

  // ---------------------------------------------------------------------------------------------
  // The incremental fold
  // ---------------------------------------------------------------------------------------------

  ghost predicate FoldedSoFar(aggregated: map<int, Kline>, ks: seq<Kline>, width: int)
    requires width > 0
  {
    && (forall a :: a in aggregated <==> GroupOf(ks, a, width) != [])
    && (forall a | a in aggregated :: GroupOf(ks, a, width) != [] && aggregated[a] == Bar(a, GroupOf(ks, a, width)))
  }

  /**
    The fold of the preload script over the sorted candles. Every group gets its bar, complete or not; on a
    complete group this is the slice form's bar.
  */
  method AggregateFold(ks: seq<Kline>, width: int) returns (aggregated: map<int, Kline>)
    requires width > 0
    ensures FoldedSoFar(aggregated, ks, width)
  {
    aggregated := map[];
    for i := 0 to |ks|
      invariant FoldedSoFar(aggregated, ks[..i], width)
    {
      var kline := ks[i];
      var aligned := AlignDown(kline.timestamp, width);
      FoldStep(aggregated, ks[..i], kline, width);
      assert ks[..i] + [kline] == ks[..i + 1];
      if aligned !in aggregated {
        var first := Kline(aligned, kline.open, kline.high, kline.low, kline.close, kline.volume);
        aggregated := aggregated[aligned := first];
      } else {
        var agg := aggregated[aligned];
        agg := agg.(high := Max(agg.high, kline.high), low := Min(agg.low, kline.low));
        agg := agg.(close := kline.close, volume := agg.volume + kline.volume);
        aggregated := aggregated[aligned := agg];
      }
    }
    assert ks[..|ks|] == ks;
  }

  /** One more candle in the fold. */
  ghost function Folded(aggregated: map<int, Kline>, k: Kline, width: int): map<int, Kline>
    requires width > 0
  {
    var a := AlignDown(k.timestamp, width);
    aggregated[a := if a in aggregated then Merge(aggregated[a], k) else k.(timestamp := a)]
  }

  lemma FoldStep(aggregated: map<int, Kline>, ks: seq<Kline>, k: Kline, width: int)
    requires width > 0 && FoldedSoFar(aggregated, ks, width)
    ensures FoldedSoFar(Folded(aggregated, k, width), ks + [k], width)
  {
    var a := AlignDown(k.timestamp, width);
    assert (ks + [k])[..|ks|] == ks;
    BarOfOne(a, k);
    BarOfOne(k.timestamp, k);
    if a in aggregated {
      BarOfAppend(a, GroupOf(ks, a, width), [k], k.timestamp);
    }
  }

  /** The first and the last candle of a group, by their places in the list. */
  lemma {:induction false} GroupEnds(ks: seq<Kline>, a: int, width: int) returns (first: nat, last: nat)
    requires width > 0 && GroupOf(ks, a, width) != []
    ensures var g := GroupOf(ks, a, width);
      && first <= last < |ks| && g[0] == ks[first] && g[|g| - 1] == ks[last]
      && AlignDown(ks[first].timestamp, width) == a && AlignDown(ks[last].timestamp, width) == a
      && (forall i | 0 <= i < first || last < i < |ks| :: AlignDown(ks[i].timestamp, width) != a)
  {
    var n := |ks| - 1;
    if GroupOf(ks[..n], a, width) == [] {
      first, last := n, n;
      GroupOfMeaning(ks[..n], a, width);
      forall i | 0 <= i < n ensures AlignDown(ks[i].timestamp, width) != a {
        assert ks[i] in ks[..n];
      }
    } else {
      first, last := GroupEnds(ks[..n], a, width);
      if AlignDown(ks[n].timestamp, width) == a { last := n; }
    }
  }

  /** Place `i` of the list is the first, or the last, whose candle falls into the bar starting at `a`. */
  ghost predicate IsFirstOf(ks: seq<Kline>, i: int, a: int, width: int)
    requires width > 0
  {
    0 <= i < |ks| && AlignDown(ks[i].timestamp, width) == a
    && forall j | 0 <= j < i :: AlignDown(ks[j].timestamp, width) != a
  }

  ghost predicate IsLastOf(ks: seq<Kline>, i: int, a: int, width: int)
    requires width > 0
  {
    0 <= i < |ks| && AlignDown(ks[i].timestamp, width) == a
    && forall j | i < j < |ks| :: AlignDown(ks[j].timestamp, width) != a
  }

  /**
    A bar, value by value, from the candles of a list that fall into it: it opens with the first, closes with the
    last, and its range is exactly theirs.
  */
  ghost predicate Summarizes(b: Kline, ks: seq<Kline>, a: int, width: int)
    requires width > 0
  {
    b.timestamp == a && OpensAndCloses(b, ks, a, width) && HasRange(b, ks, a, width)
  }

  ghost predicate OpensAndCloses(b: Kline, ks: seq<Kline>, a: int, width: int)
    requires width > 0
  {
    && (forall i | IsFirstOf(ks, i, a, width) :: b.open == ks[i].open)
    && (forall i | IsLastOf(ks, i, a, width) :: b.close == ks[i].close)
  }

  ghost predicate HasRange(b: Kline, ks: seq<Kline>, a: int, width: int)
    requires width > 0
  {
    && (forall k | FallsInto(k, ks, a, width) :: b.low <= k.low && k.high <= b.high)
    && (exists k :: FallsInto(k, ks, a, width) && k.high == b.high)
    && (exists k :: FallsInto(k, ks, a, width) && k.low == b.low)
  }

  /** A candle of the list that falls into the bar starting at `a`. */
  ghost predicate FallsInto(k: Kline, ks: seq<Kline>, a: int, width: int)
    requires width > 0
  {
    k in ks && AlignDown(k.timestamp, width) == a
  }

  lemma FallsIntoGroup(ks: seq<Kline>, a: int, width: int)
    requires width > 0
    ensures forall k :: k in GroupOf(ks, a, width) <==> FallsInto(k, ks, a, width)
  {
    GroupOfMeaning(ks, a, width);
  }

  /** The range of a bar is exactly that of its candles. */
  lemma BarRange(t: int, g: seq<Kline>) returns (h: Kline, l: Kline)
    requires g != []
    ensures forall k | k in g :: Bar(t, g).low <= k.low && k.high <= Bar(t, g).high
    ensures h in g && l in g && h.high == Bar(t, g).high && l.low == Bar(t, g).low
  {
    HighIsMaximum(g);
    LowIsMinimum(g);
    h :| h in g && h.high == MaxHigh(g);
    l :| l in g && l.low == MinLow(g);
  }

  lemma GroupBarMeaning(ks: seq<Kline>, a: int, width: int)
    requires width > 0 && GroupOf(ks, a, width) != []
    ensures Summarizes(Bar(a, GroupOf(ks, a, width)), ks, a, width)
  {
    GroupBarEnds(Bar(a, GroupOf(ks, a, width)), ks, a, width, GroupOf(ks, a, width));
    GroupBarRange(ks, a, width);
  }

  lemma GroupBarEnds(b: Kline, ks: seq<Kline>, a: int, width: int, g: seq<Kline>)
    requires width > 0 && g == GroupOf(ks, a, width) && g != []
    requires b.open == g[0].open && b.close == g[|g| - 1].close
    ensures OpensAndCloses(b, ks, a, width)
  {
    GroupOpensAndCloses(ks, a, width);
  }

  lemma GroupBarRange(ks: seq<Kline>, a: int, width: int)
    requires width > 0 && GroupOf(ks, a, width) != []
    ensures HasRange(Bar(a, GroupOf(ks, a, width)), ks, a, width)
  {
    FallsIntoGroup(ks, a, width);
    var h, l := BarRange(a, GroupOf(ks, a, width));
    assert FallsInto(h, ks, a, width) && FallsInto(l, ks, a, width);
  }

  lemma GroupOpensAndCloses(ks: seq<Kline>, a: int, width: int)
    requires width > 0 && GroupOf(ks, a, width) != []
    ensures var g := GroupOf(ks, a, width);
      && (forall i | IsFirstOf(ks, i, a, width) :: ks[i] == g[0])
      && (forall i | IsLastOf(ks, i, a, width) :: ks[i] == g[|g| - 1])
  {
    var first, last := GroupEnds(ks, a, width);
    forall i | IsFirstOf(ks, i, a, width) ensures i == first {
    }
    forall i | IsLastOf(ks, i, a, width) ensures i == last {
    }
  }

  /** The fold has a bar for every candle's group and no other, and each summarizes its group. */
  lemma FoldMeaning(aggregated: map<int, Kline>, ks: seq<Kline>, width: int, a: int)
    requires width > 0 && FoldedSoFar(aggregated, ks, width)
    ensures a in aggregated <==> exists k :: FallsInto(k, ks, a, width)
    ensures a in aggregated ==> Summarizes(aggregated[a], ks, a, width)
  {
    FallsIntoGroup(ks, a, width);
    var g := GroupOf(ks, a, width);
    if g != [] {
      assert FallsInto(g[0], ks, a, width) by { assert g[0] in g; }
      GroupBarMeaning(ks, a, width);
    }
  }

  /** On a complete group the fold's bar is the slice form's. */
  lemma FoldAgreesWithSlice(aggregated: map<int, Kline>, ks: seq<Kline>, width: int, multiplier: nat, a: int)
    requires width > 0 && multiplier > 0 && FoldedSoFar(aggregated, ks, width)
    requires |GroupOf(ks, a, width)| == multiplier
    ensures a in aggregated && AggregateSlice(GroupOf(ks, a, width), multiplier, a) == Some(aggregated[a])
  {
    var g := GroupOf(ks, a, width);
    assert g[..multiplier] == g;
  }

  // ---------------------------------------------------------------------------------------------
  // The complete bars of a list of minutes
  // ---------------------------------------------------------------------------------------------

  ghost predicate HasMinute(ks: seq<Kline>, t: int) {
    exists k | k in ks :: k.timestamp == t
  }

  /** All minutes of the bar starting at `a` are in the list. */
  ghost predicate Complete(ks: seq<Kline>, a: int, multiplier: nat) {
    forall i | 0 <= i < multiplier :: HasMinute(ks, a + i * MINUTE_MS)
  }

  ghost predicate AllMinuteAligned(ks: seq<Kline>) {
    forall k | k in ks :: MinuteAligned(k.timestamp)
  }

  /** `b` is the bar of `multiplier` consecutive minutes of the list. */
  ghost predicate IsBarOf(b: Kline, ks: seq<Kline>, multiplier: nat) {
    exists g: seq<Kline> ::
      && g != [] && |g| == multiplier && ConsecutiveMinutes(g, b.timestamp)
      && (forall k | k in g :: k in ks)
      && b == Bar(b.timestamp, g)
  }

  lemma {:induction false} EnoughMinutes(g: seq<Kline>, a: int, n: nat)
    requires Ascending(g) && Complete(g, a, n)
    ensures |g| >= n
  {
    if n > 0 {
      assert HasMinute(g, a + (n - 1) * MINUTE_MS);
      var k :| k in g && k.timestamp == a + (n - 1) * MINUTE_MS;
      var j :| 0 <= j < |g| && g[j] == k;
      forall i | 0 <= i < n - 1 ensures HasMinute(g[..j], a + i * MINUTE_MS) {
        assert HasMinute(g, a + i * MINUTE_MS);
        var e :| e in g && e.timestamp == a + i * MINUTE_MS;
        var x :| 0 <= x < |g| && g[x] == e;
        assert g[..j][x] == e;
      }
      EnoughMinutes(g[..j], a, n - 1);
    }
  }

  /** A group of a list of minutes is full exactly when every minute of its bar is there. */
  lemma FullIffComplete(ks: seq<Kline>, a: int, width: int, n: nat)
    requires width == n * MINUTE_MS && n > 0
    requires Ascending(ks) && AllMinuteAligned(ks) && a % width == 0
    ensures var g := GroupOf(ks, a, width);
      |g| <= n && (|g| == n ==> ConsecutiveMinutes(g, a)) && (|g| == n <==> Complete(ks, a, n))
  {
    var g := GroupOf(ks, a, width);
    GroupOfMeaning(ks, a, width);
    GroupOfAscending(ks, a, width);
    AlignedMultiple(a, n);
    forall i | 0 <= i < |g| ensures MinuteAligned(g[i].timestamp) && a <= g[i].timestamp < a + n * MINUTE_MS {
      assert g[i] in ks;
      AlignDownMeaning(g[i].timestamp, width);
    }
    FullGroup(g, a, n);
    if |g| == n { FullHasMinutes(ks, g, a, n); }
    if Complete(ks, a, n) {
      CompleteGroup(ks, a, width, n);
      EnoughMinutes(g, a, n);
    }
  }

  lemma FullHasMinutes(ks: seq<Kline>, g: seq<Kline>, a: int, n: nat)
    requires |g| == n && ConsecutiveMinutes(g, a) && forall k | k in g :: k in ks
    ensures Complete(ks, a, n)
  {
    forall i | 0 <= i < n ensures HasMinute(ks, a + i * MINUTE_MS) {
      assert g[i] in g;
    }
  }

  lemma AlignedMultiple(a: int, n: nat)
    requires n > 0 && a % (n * MINUTE_MS) == 0
    ensures MinuteAligned(a)
  {
    var q := a / (n * MINUTE_MS);
    assert a == q * (n * MINUTE_MS) == (q * n) * MINUTE_MS;
  }

  lemma CompleteGroup(ks: seq<Kline>, a: int, width: int, n: nat)
    requires width == n * MINUTE_MS && n > 0 && a % width == 0 && Complete(ks, a, n)
    ensures Complete(GroupOf(ks, a, width), a, n)
  {
    GroupOfMeaning(ks, a, width);
    forall i | 0 <= i < n ensures HasMinute(GroupOf(ks, a, width), a + i * MINUTE_MS) {
      assert HasMinute(ks, a + i * MINUTE_MS);
      AlignDownInside(a, width, i * MINUTE_MS);
    }
  }

  lemma AlignDownInside(a: int, width: int, d: int)
    requires width > 0 && a % width == 0 && 0 <= d < width
    ensures AlignDown(a + d, width) == a
  {
    assert a == a / width * width;
    GapDetection.ModUnique(a / width, d, width);
  }

  // ---------------------------------------------------------------------------------------------
  // The bars the filler writes
  // ---------------------------------------------------------------------------------------------

  /** The filler closes a bar with the last candle of the group and takes the rest from the first `multiplier`. */
  function FillerBar(a: int, g: seq<Kline>, multiplier: nat): Kline
    requires 0 < multiplier <= |g|
  {
    var head := g[..multiplier];
    Kline(a, g[0].open, MaxHigh(head), MinLow(head), g[|g| - 1].close, SumVolume(head))
  }

  ghost predicate Emits(a: int, existing: set<int>, ks: seq<Kline>, width: int, multiplier: nat)
    requires width > 0
  {
    a !in existing && |GroupOf(ks, a, width)| >= multiplier
  }

  ghost function OutBars(keys: seq<int>, existing: set<int>, ks: seq<Kline>, width: int, multiplier: nat): seq<Kline>
    requires width > 0 && multiplier > 0
  {
    if keys == [] then []
    else
      var front, a := OutBars(keys[..|keys| - 1], existing, ks, width, multiplier), keys[|keys| - 1];
      if Emits(a, existing, ks, width, multiplier)
      then front + [FillerBar(a, GroupOf(ks, a, width), multiplier)]
      else front
  }

  lemma {:induction false} OutBarsMeaning(keys: seq<int>, existing: set<int>, ks: seq<Kline>, width: int,
      multiplier: nat)
    requires width > 0 && multiplier > 0 && GapDetection.Increasing(keys)
    ensures var out := OutBars(keys, existing, ks, width, multiplier);
      && Ascending(out)
      && (forall b | b in out :: b.timestamp in keys && Emits(b.timestamp, existing, ks, width, multiplier)
                              && b == FillerBar(b.timestamp, GroupOf(ks, b.timestamp, width), multiplier))
      && (forall a | a in keys && Emits(a, existing, ks, width, multiplier) :: HasMinute(out, a))
  {
    if keys != [] {
      var front, a := keys[..|keys| - 1], keys[|keys| - 1];
      OutBarsMeaning(front, existing, ks, width, multiplier);
      var before := OutBars(front, existing, ks, width, multiplier);
      var out := OutBars(keys, existing, ks, width, multiplier);
      forall i | 0 <= i < |before| ensures before[i].timestamp < a {
        assert before[i].timestamp in front;
      }
      forall x | x in keys && Emits(x, existing, ks, width, multiplier) ensures HasMinute(out, x) {
        if x == a {
          assert out[|out| - 1].timestamp == a && out[|out| - 1] in out;
        } else {
          assert x in front && HasMinute(before, x);
          var b :| b in before && b.timestamp == x;
          assert b in out;
        }
      }
    }
  }

  /** The new bars are exactly the complete bars that are not stored yet, each built from its minutes. */
  ghost predicate NewBars(written: seq<Kline>, existing: set<int>, ks: seq<Kline>, width: int, multiplier: nat)
    requires width > 0
  {
    && Ascending(written)
    && (forall b | b in written :: b.timestamp % width == 0 && b.timestamp !in existing && IsBarOf(b, ks, multiplier))
    && (forall a | a % width == 0 && a !in existing && Complete(ks, a, multiplier) :: HasMinute(written, a))
  }

  lemma OutBarsAreNewBars(keys: seq<int>, existing: set<int>, ks: seq<Kline>, width: int, multiplier: nat)
    requires multiplier > 0 && width == multiplier * MINUTE_MS && GapDetection.Increasing(keys)
    requires Ascending(ks) && AllMinuteAligned(ks)
    requires forall a :: a in keys <==> GroupOf(ks, a, width) != []
    ensures NewBars(OutBars(keys, existing, ks, width, multiplier), existing, ks, width, multiplier)
  {
    var out := OutBars(keys, existing, ks, width, multiplier);
    OutBarsMeaning(keys, existing, ks, width, multiplier);
    forall b | b in out
      ensures b.timestamp % width == 0 && b.timestamp !in existing && IsBarOf(b, ks, multiplier)
    {
      EmittedBar(b, existing, ks, width, multiplier);
    }
    forall a | a % width == 0 && a !in existing && Complete(ks, a, multiplier) ensures HasMinute(out, a) {
      FullIffComplete(ks, a, width, multiplier);
      assert a in keys;
    }
  }

  lemma EmittedBar(b: Kline, existing: set<int>, ks: seq<Kline>, width: int, multiplier: nat)
    requires multiplier > 0 && width == multiplier * MINUTE_MS
    requires Ascending(ks) && AllMinuteAligned(ks)
    requires Emits(b.timestamp, existing, ks, width, multiplier)
    requires b == FillerBar(b.timestamp, GroupOf(ks, b.timestamp, width), multiplier)
    ensures b.timestamp % width == 0 && IsBarOf(b, ks, multiplier)
  {
    var a := b.timestamp;
    var g := GroupOf(ks, a, width);
    GroupOfMeaning(ks, a, width);
    assert g[0] in g;
    AlignDownOnGrid(g[0].timestamp, width);
    FullIffComplete(ks, a, width, multiplier);
    assert g[..multiplier] == g;
  }

  lemma AscendingOnce(ks: seq<Kline>, x: Kline, y: Kline)
    requires Ascending(ks) && x in ks && y in ks && x.timestamp == y.timestamp
    ensures x == y
  {
    var i :| 0 <= i < |ks| && ks[i] == x;
    var j :| 0 <= j < |ks| && ks[j] == y;
    assert i == j;
  }

  lemma FullGroupIs(ks: seq<Kline>, g: seq<Kline>, a: int, width: int, n: nat)
    requires width == n * MINUTE_MS && n > 0 && a % width == 0 && Ascending(ks) && AllMinuteAligned(ks)
    requires |g| == n && ConsecutiveMinutes(g, a) && forall k | k in g :: k in ks
    ensures GroupOf(ks, a, width) == g
  {
    var group := GroupOf(ks, a, width);
    FullHasMinutes(ks, g, a, n);
    FullIffComplete(ks, a, width, n);
    GroupOfMeaning(ks, a, width);
    forall i | 0 <= i < n ensures group[i] == g[i] {
      assert group[i] in group && g[i] in g;
      AscendingOnce(ks, group[i], g[i]);
    }
  }

  /**
    A written bar summarizes the minutes it is written from. In particular it opens with the minute at its start and
    closes with the last of its minutes, and all of its minutes are there.
  */
  lemma WrittenBarMeaning(b: Kline, written: seq<Kline>, existing: set<int>, ks: seq<Kline>, width: int, n: nat)
    requires width == n * MINUTE_MS && n > 0 && Ascending(ks) && AllMinuteAligned(ks)
    requires NewBars(written, existing, ks, width, n) && b in written
    ensures Summarizes(b, ks, b.timestamp, width)
    ensures forall i | 0 <= i < n :: HasMinute(ks, b.timestamp + i * MINUTE_MS)
    ensures forall k | k in ks && k.timestamp == b.timestamp :: b.open == k.open
    ensures forall k | k in ks && k.timestamp == b.timestamp + (n - 1) * MINUTE_MS :: b.close == k.close
  {
    BarOfMinutesMeaning(b, ks, width, n);
  }

  lemma BarOfMinutesMeaning(b: Kline, ks: seq<Kline>, width: int, n: nat)
    requires width == n * MINUTE_MS && n > 0 && Ascending(ks) && AllMinuteAligned(ks)
    requires b.timestamp % width == 0 && IsBarOf(b, ks, n)
    ensures Summarizes(b, ks, b.timestamp, width)
    ensures forall i | 0 <= i < n :: HasMinute(ks, b.timestamp + i * MINUTE_MS)
    ensures forall k | k in ks && k.timestamp == b.timestamp :: b.open == k.open
    ensures forall k | k in ks && k.timestamp == b.timestamp + (n - 1) * MINUTE_MS :: b.close == k.close
  {
    var g := WrittenGroup(b, ks, width, n);
    GroupBarMeaning(ks, b.timestamp, width);
    FullHasMinutes(ks, g, b.timestamp, n);
    EndsOfMinutes(ks, g, b.timestamp, n);
  }

  lemma WrittenGroup(b: Kline, ks: seq<Kline>, width: int, n: nat) returns (g: seq<Kline>)
    requires width == n * MINUTE_MS && n > 0 && Ascending(ks) && AllMinuteAligned(ks)
    requires b.timestamp % width == 0 && IsBarOf(b, ks, n)
    ensures |g| == n && ConsecutiveMinutes(g, b.timestamp) && (forall k | k in g :: k in ks)
    ensures g == GroupOf(ks, b.timestamp, width) && b == Bar(b.timestamp, g)
  {
    var a := b.timestamp;
    g :| g != [] && |g| == n && ConsecutiveMinutes(g, a) && (forall k | k in g :: k in ks) && b == Bar(a, g);
    FullGroupIs(ks, g, a, width, n);
  }

  lemma EndsOfMinutes(ks: seq<Kline>, g: seq<Kline>, a: int, n: nat)
    requires n > 0 && Ascending(ks) && |g| == n && ConsecutiveMinutes(g, a) && forall k | k in g :: k in ks
    ensures forall k | k in ks && k.timestamp == a :: k == g[0]
    ensures forall k | k in ks && k.timestamp == a + (n - 1) * MINUTE_MS :: k == g[n - 1]
  {
    assert g[0] in g && g[n - 1] in g;
    forall k | k in ks && k.timestamp == a ensures k == g[0] {
      AscendingOnce(ks, k, g[0]);
    }
    forall k | k in ks && k.timestamp == a + (n - 1) * MINUTE_MS ensures k == g[n - 1] {
      AscendingOnce(ks, k, g[n - 1]);
    }
  }

  /** The volume of a bar is the sum over its candles: nothing for none, and each candle adds its own. */
  lemma VolumeAddsUp(bars: seq<Kline>, k: Kline)
    ensures SumVolume([]) == 0.0 && SumVolume(bars + [k]) == SumVolume(bars) + k.volume
  {
    assert (bars + [k])[..|bars|] == bars;
  }
}
