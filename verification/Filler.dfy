/**
  fast_kline_filler.py: repairing the one-minute candles of a symbol and rebuilding the coarser bars.
*/
module Filler {
  import opened Klines
  import opened SortedSets
  import opened Aggregation
  import opened Fetchers
  import opened Intervals
  import opened GapDetection

  // ---------------------------------------------------------------------------------------------
  // Tables
  // ---------------------------------------------------------------------------------------------

  const TARGETS := ["5m", "15m", "30m", "1h", "4h", "8h"]

  function Multiplier(interval: string): (m: nat)
    ensures m > 0
  {
    if interval == "5m" then 5
    else if interval == "15m" then 15
    else if interval == "30m" then 30
    else if interval == "1h" then 60
    else if interval == "4h" then 240
    else 480
  }

  /** INTERVAL_MS of a target. */
  function TargetMs(interval: string): (ms: int)
    ensures ms == Multiplier(interval) * MINUTE_MS
  {
    if interval == "5m" then 300_000
    else if interval == "15m" then 900_000
    else if interval == "30m" then 1_800_000
    else if interval == "1h" then 3_600_000
    else if interval == "4h" then 14_400_000
    else 28_800_000
  }

  /** Both tables say what the names of the intervals say, for the lengths between a minute and a day. */
  lemma TargetTable(interval: string)
    ensures interval in TARGETS ==> TargetMs(interval) == NamedMs(interval) == Multiplier(interval) * MINUTE_MS
    ensures interval in TARGETS <==>
      IsInterval(interval) && 'H' !in interval && MINUTE_MS < NamedMs(interval) < GapDetection.DAY
  {
    IntervalTable(interval);
    if interval in TARGETS && interval != "8h" {
      assert TargetMs(interval) == IntervalMs(interval);
    }
    if interval == "1H" || interval == "4H" {
      assert interval[1] == 'H';
    }
  }

  // ---------------------------------------------------------------------------------------------
  // aggregate_and_write
  // ---------------------------------------------------------------------------------------------

  /** One candle per score of the window, by increasing time, each of them stored. */
  ghost predicate IsMinuteList(ks: seq<Kline>, z: ZSet, lo: int, hi: int) {
    && Ascending(ks)
    && (forall k {:trigger IsStored(k, z, lo, hi)} | k in ks :: IsStored(k, z, lo, hi))
    && (forall m | InRange(z, m, lo, hi) :: HasMinute(ks, z[m]))
  }

  ghost predicate IsStored(k: Kline, z: ZSet, lo: int, hi: int) {
    exists m :: InRange(z, m, lo, hi) && m.kline == k
  }

  ghost predicate ScoresAligned(z: ZSet) {
    forall m | m in z :: MinuteAligned(z[m])
  }

  /** kline_map: the first member of each score, in the order of the reply. */
  method FirstOfEachScore(raw: seq<Member>, ghost z: ZSet, ghost lo: int, ghost hi: int) returns (ks: seq<Kline>)
    requires Lists(raw, z, lo, hi) && Consistent(z)
    ensures IsMinuteList(ks, z, lo, hi)
  {
    assert forall i | 0 <= i < |raw| :: raw[i] in raw && InRange(z, raw[i], lo, hi);
    ks := CompressTimes(raw);
    forall k | k in ks ensures IsStored(k, z, lo, hi) {
      assert FromMember(k, raw);
      var m :| m in raw && m.kline == k;
      assert InRange(z, m, lo, hi);
    }
    forall m | InRange(z, m, lo, hi) ensures HasMinute(ks, z[m]) {
      assert m in raw;
    }
  }

  method CompressTimes(raw: seq<Member>) returns (ks: seq<Kline>)
    requires forall i, j | 0 <= i < j < |raw| :: raw[i].kline.timestamp <= raw[j].kline.timestamp
    ensures Ascending(ks)
    ensures forall k {:trigger FromMember(k, raw)} | k in ks :: FromMember(k, raw)
    ensures forall m | m in raw :: HasMinute(ks, m.kline.timestamp)
  {
    ks := [];
    for i := 0 to |raw|
      invariant Compressed(ks, raw[..i])
    {
      CompressNext(ks, raw, i);
      if ks == [] || ks[|ks| - 1].timestamp != raw[i].kline.timestamp {   // ts not in kline_map
        ks := ks + [raw[i].kline];
      }
    }
    assert raw[..|raw|] == raw;
  }

  ghost predicate FromMember(k: Kline, raw: seq<Member>) {
    exists m :: m in raw && m.kline == k
  }

  ghost predicate Compressed(ks: seq<Kline>, raw: seq<Member>) {
    && Ascending(ks)
    && (forall k {:trigger FromMember(k, raw)} | k in ks :: FromMember(k, raw))
    && (forall m | m in raw :: HasMinute(ks, m.kline.timestamp))
    && (if raw == [] then ks == [] else ks != [] && ks[|ks| - 1].timestamp == raw[|raw| - 1].kline.timestamp)
  }

  lemma CompressStep(ks: seq<Kline>, raw: seq<Member>, m: Member)
    requires Compressed(ks, raw) && (raw != [] ==> raw[|raw| - 1].kline.timestamp <= m.kline.timestamp)
    ensures Compressed(
      if ks == [] || ks[|ks| - 1].timestamp != m.kline.timestamp then ks + [m.kline] else ks, raw + [m])
  {
    if ks == [] || ks[|ks| - 1].timestamp != m.kline.timestamp {
      CompressNew(ks, raw, m);
    } else {
      CompressRepeat(ks, raw, m);
    }
  }

  lemma CompressNext(ks: seq<Kline>, raw: seq<Member>, i: nat)
    requires i < |raw| && Compressed(ks, raw[..i])
    requires forall i, j | 0 <= i < j < |raw| :: raw[i].kline.timestamp <= raw[j].kline.timestamp
    ensures Compressed(
      if ks == [] || ks[|ks| - 1].timestamp != raw[i].kline.timestamp then ks + [raw[i].kline] else ks, raw[..i + 1])
  {
    CompressStep(ks, raw[..i], raw[i]);
    assert raw[..i] + [raw[i]] == raw[..i + 1];
  }

  lemma CompressNew(ks: seq<Kline>, raw: seq<Member>, m: Member)
    requires Compressed(ks, raw) && (ks == [] || ks[|ks| - 1].timestamp < m.kline.timestamp)
    ensures Compressed(ks + [m.kline], raw + [m])
  {
    forall n | n in raw + [m] ensures HasMinute(ks + [m.kline], n.kline.timestamp) {
      MinuteOfMore(ks, m.kline, n.kline.timestamp);
    }
    forall k | k in ks + [m.kline] ensures FromMember(k, raw + [m]) {
      MemberOfMore(k, raw, m);
    }
  }

  lemma CompressRepeat(ks: seq<Kline>, raw: seq<Member>, m: Member)
    requires Compressed(ks, raw) && ks != [] && ks[|ks| - 1].timestamp == m.kline.timestamp
    ensures Compressed(ks, raw + [m])
  {
    assert ks[|ks| - 1] in ks;
    forall k | k in ks ensures FromMember(k, raw + [m]) {
      MemberOfMore(k, raw, m);
    }
  }

  lemma MinuteOfMore(ks: seq<Kline>, k: Kline, t: int)
    ensures HasMinute(ks, t) || k.timestamp == t ==> HasMinute(ks + [k], t)
  {
    if HasMinute(ks, t) {
      var x :| x in ks && x.timestamp == t;
      assert x in ks + [k];
    } else {
      assert k in ks + [k];
    }
  }

  lemma MemberOfMore(k: Kline, raw: seq<Member>, m: Member)
    ensures FromMember(k, raw) || k == m.kline ==> FromMember(k, raw + [m])
  {
    if FromMember(k, raw) {
      var n :| n in raw && n.kline == k;
      assert n in raw + [m];
    } else {
      assert m in raw + [m];
    }
  }

  ghost predicate GroupedSoFar(groups: map<int, seq<Kline>>, ks: seq<Kline>, width: int)
    requires width > 0
  {
    forall a :: (a in groups <==> GroupOf(ks, a, width) != []) && (a in groups ==> groups[a] == GroupOf(ks, a, width))
  }

  method GroupMinutes(ks: seq<Kline>, width: int) returns (groups: map<int, seq<Kline>>)
    requires width > 0
    ensures GroupedSoFar(groups, ks, width)
  {
    groups := map[];
    for i := 0 to |ks|
      invariant GroupedSoFar(groups, ks[..i], width)
    {
      var aligned := AlignDown(ks[i].timestamp, width);
      assert ks[..i + 1][..i] == ks[..i];
      if aligned !in groups { groups := groups[aligned := []]; }
      groups := groups[aligned := groups[aligned] + [ks[i]]];
    }
    assert ks[..|ks|] == ks;
  }

  /** sorted(keys) */
  method SortedKeys(keys: set<int>) returns (r: seq<int>)
    ensures Increasing(r) && forall a :: a in r <==> a in keys
  {
    r := [];
    var rest := keys;
    while rest != {}
      invariant rest <= keys && Increasing(r)
      invariant forall a :: a in keys <==> a in r || a in rest
      invariant forall i, b | 0 <= i < |r| && b in rest :: r[i] < b
      decreases |rest|
    {
      var a := Smallest(rest);
      r := r + [a];
      rest := rest - {a};
    }
  }

  method Smallest(s: set<int>) returns (a: int)
    requires s != {}
    ensures a in s && forall b | b in s :: a <= b
  {
    SomeElement(s);
    a :| a in s;
    var rest := s - {a};
    while rest != {}
      invariant rest <= s && a in s && forall b | b in s && b !in rest :: a <= b
      decreases |rest|
    {
      SomeElement(rest);
      var b :| b in rest;
      rest := rest - {b};
      if b < a { a := b; }
    }
  }

  lemma SomeElement(s: set<int>)
    ensures s != {} ==> exists a :: a in s
  {
    if forall a :: a !in s { assert s == {}; }
  }

  method EmitBars(groups: map<int, seq<Kline>>, existing: set<int>, multiplier: nat, width: int, ghost ks: seq<Kline>)
    returns (bars: seq<Kline>, ghost keys: seq<int>)
    requires width > 0 && multiplier > 0 && Ascending(ks) && GroupedSoFar(groups, ks, width)
    ensures Increasing(keys) && forall a :: a in keys <==> GroupOf(ks, a, width) != []
    ensures bars == OutBars(keys, existing, ks, width, multiplier)
  {
    var order := SortedKeys(groups.Keys);
    bars, keys := [], order;
    for i := 0 to |order|
      invariant bars == OutBars(order[..i], existing, ks, width, multiplier)
    {
      var a := order[i];
      assert a in order && order[..i + 1][..i] == order[..i];
      GroupOfAscending(ks, a, width);
      if a !in existing {
        var sortedBars := SortByTimestamp(groups[a]);
        SortedAlready(groups[a]);
        if |sortedBars| >= multiplier {
          bars := bars + [FillerBar(a, sortedBars, multiplier)];
        }
      }
    }
    assert order[..|order|] == order;
  }

  lemma SortedAlready(ks: seq<Kline>)
    requires Ascending(ks)
    ensures SortByTimestamp(ks) == ks
  {
    SortOfDistinct(ks);
    AscendingUnique(SortByTimestamp(ks), ks);
  }

  method AggregateAndWrite(r: Redis, exchange: string, symbol: string, target: string, startMs: int, endMs: int)
    returns (count: nat, ghost minutes: seq<Kline>, ghost written: seq<Kline>)
    requires target in TARGETS && Consistent(r.Get(Key(exchange, symbol, "1m")))
    modifies r
    ensures forall k | k != Key(exchange, symbol, target) :: r.Get(k) == old(r.Get(k))
    ensures count == |written|
    ensures r.Get(Key(exchange, symbol, target)) == UpsertAll(old(r.Get(Key(exchange, symbol, target))), written)
    ensures IsMinuteList(minutes, old(r.Get(Key(exchange, symbol, "1m"))), AlignDown(startMs, TargetMs(target)), endMs)
    ensures ScoresAligned(old(r.Get(Key(exchange, symbol, "1m")))) ==>
      NewBars(written, WindowScores(old(r.Get(Key(exchange, symbol, target))), AlignDown(startMs, TargetMs(target)),
          endMs),
              minutes, TargetMs(target), Multiplier(target))
  {
    var multiplier, width := Multiplier(target), TargetMs(target);
    var baseKey, targetKey := Key(exchange, symbol, "1m"), Key(exchange, symbol, target);
    var alignedStart := AlignDown(startMs, width);
    ghost var z := r.Get(baseKey);
    var raw := r.RangeByScore(baseKey, alignedStart, endMs);
    var ks := FirstOfEachScore(raw, z, alignedStart, endMs);
    minutes := ks;
    var existing := ScoresIn(r, targetKey, alignedStart, endMs);
    var groups := GroupMinutes(ks, width);
    ghost var keys;
    var bars;
    bars, keys := EmitBars(groups, existing, multiplier, width, ks);
    written := bars;
    if ScoresAligned(z) {
      MinutesAligned(ks, z, alignedStart, endMs);
      OutBarsAreNewBars(keys, existing, ks, width, multiplier);
    }
    count := r.WriteKlines(targetKey, bars);
  }

  method ScoresIn(r: Redis, key: Key, lo: int, hi: int) returns (existing: set<int>)
    ensures existing == WindowScores(r.Get(key), lo, hi)
  {
    var raw := r.RangeByScore(key, lo, hi);
    var z := r.Get(key);
    assert forall m | m in raw :: InRange(z, m, lo, hi);
    existing := set m | m in raw :: z[m];
    assert forall m :: m in raw <==> InRange(z, m, lo, hi);
  }

  lemma MinutesAligned(ks: seq<Kline>, z: ZSet, lo: int, hi: int)
    requires IsMinuteList(ks, z, lo, hi) && Consistent(z) && ScoresAligned(z)
    ensures AllMinuteAligned(ks)
  {
    forall k | k in ks ensures MinuteAligned(k.timestamp) {
      assert IsStored(k, z, lo, hi);
    }
  }

  // ---------------------------------------------------------------------------------------------
  // process_exchange_batch: one symbol
  // ---------------------------------------------------------------------------------------------

  /** The servers as they answer while one symbol is processed: one behaviour per gap. */
  datatype Servers = Servers(okx: nat -> OkxServer, binance: nat -> BinanceServer)

  /** The server of the n-th gap, on the exchange that is asked. */
  ghost predicate ServerTruthful(servers: Servers, exchange: string, n: nat, market: set<Kline>) {
    if exchange == "binance" then BinanceTruthful(servers.binance(n), market) else OkxTruthful(servers.okx(n), market)
  }

  ghost predicate ServerReliable(servers: Servers, exchange: string, n: nat) {
    if exchange == "binance" then BinanceReliable(servers.binance(n)) else OkxReliable(servers.okx(n))
  }

  ghost predicate Truthful(servers: Servers, exchange: string, market: set<Kline>) {
    forall n: nat :: ServerTruthful(servers, exchange, n, market)
  }

  ghost predicate Reliable(servers: Servers, exchange: string) {
    forall n: nat :: ServerReliable(servers, exchange, n)
  }

  /** A true candle history: on the minute grid, one candle per minute. */
  ghost predicate IsMarket(market: set<Kline>) {
    OnePerTimestamp(market) && forall c | c in market :: MinuteAligned(c.timestamp)
  }

  /**
    What is known of the minutes after the gaps of the list have been filled: a score holds what it held before,
    or, inside a gap, the market's candle of that minute.
  */
  ghost predicate FilledFrom(before: ZSet, after: ZSet, market: set<Kline>, gaps: seq<Gap>) {
    && Consistent(after)
    && (forall t :: At(after, t) == At(before, t)
                 || (Covered(gaps, t) && exists c | c in market :: c.timestamp == t && At(after, t) == {Stored(c)}))
  }

  ghost predicate AllFilled(after: ZSet, market: set<Kline>, gaps: seq<Gap>) {
    forall c | c in market && Covered(gaps, c.timestamp) :: At(after, c.timestamp) == {Stored(c)}
  }

  /** No candle of the market is missing in this gap. */
  ghost predicate GapFilled(after: ZSet, market: set<Kline>, gap: Gap) {
    forall c | c in market && Covers(gap, c.timestamp) :: At(after, c.timestamp) == {Stored(c)}
  }

  /** The gaps come one after the other, and none of their minutes is stored. */
  ghost predicate Vacant(gaps: seq<Gap>, z: ZSet) {
    && (forall i, j | 0 <= i < j < |gaps| :: gaps[i].endTs < gaps[j].startTs)
    && (forall t {:trigger Covered(gaps, t)} | MinuteAligned(t) && Covered(gaps, t) :: t !in Scores(z))
  }

  /** The timestamps that are stored now and were not before. */
  ghost function NewScores(before: ZSet, after: ZSet): set<int> {
    Scores(after) - Scores(before)
  }

  /** A gap whose server does not fail is filled, whatever the others do; `filled` counts the new timestamps. */
  method FillGaps(r: Redis, exchange: string, symbol: string, gaps: seq<Gap>, servers: Servers,
      ghost market: set<Kline>)
    returns (filled: nat)
    requires Consistent(r.Get(Key(exchange, symbol, "1m"))) && Truthful(servers, exchange, market) && IsMarket(market)
    modifies r
    ensures forall k | k != Key(exchange, symbol, "1m") :: r.Get(k) == old(r.Get(k))
    ensures FilledFrom(old(r.Get(Key(exchange, symbol, "1m"))), r.Get(Key(exchange, symbol, "1m")), market, gaps)
    ensures forall n | 0 <= n < |gaps| && ServerReliable(servers, exchange, n) ::
      GapFilled(r.Get(Key(exchange, symbol, "1m")), market, gaps[n])
    ensures Reliable(servers, exchange) ==> AllFilled(r.Get(Key(exchange, symbol, "1m")), market, gaps)
    ensures filled == 0 ==> r.Get(Key(exchange, symbol, "1m")) == old(r.Get(Key(exchange, symbol, "1m")))
    ensures Vacant(gaps, old(r.Get(Key(exchange, symbol, "1m")))) ==>
      filled == |NewScores(old(r.Get(Key(exchange, symbol, "1m"))), r.Get(Key(exchange, symbol, "1m")))|
  {
    var key := Key(exchange, symbol, "1m");
    ghost var z := r.Get(key);
    filled := 0;
    FillStart(z, market, gaps, servers, exchange);
    for i := 0 to |gaps|
      invariant forall k | k != key :: r.Get(k) == old(r.Get(k))
      invariant FillProgress(z, r.Get(key), market, gaps, i, servers, exchange, filled)
    {
      ghost var before := r.Get(key);
      var klines := FetchGap(exchange, servers, i, gaps[i], market);
      FillNext(z, before, market, gaps, i, servers, exchange, filled, klines);
      if klines != [] {
        var count := r.WriteKlines(key, klines);
        filled := filled + count;
      }
    }
    FillEnd(z, r.Get(key), market, gaps, servers, exchange, filled);
  }

  /** Where the loop over the gaps stands after `i` of them. */
  ghost predicate FillProgress(z: ZSet, now: ZSet, market: set<Kline>, gaps: seq<Gap>, i: nat, servers: Servers,
      exchange: string, filled: nat)
    requires i <= |gaps|
  {
    && FilledFrom(z, now, market, gaps[..i])
    && ReliablyFilled(now, market, gaps, i, servers, exchange)
    && (filled == 0 ==> now == z)
    && (Vacant(gaps, z) ==> filled == |NewScores(z, now)|)
  }

  ghost predicate ReliablyFilled(now: ZSet, market: set<Kline>, gaps: seq<Gap>, i: nat, servers: Servers,
      exchange: string)
    requires i <= |gaps|
  {
    forall n | 0 <= n < i && ServerReliable(servers, exchange, n) :: GapFilled(now, market, gaps[n])
  }

  lemma FillStart(z: ZSet, market: set<Kline>, gaps: seq<Gap>, servers: Servers, exchange: string)
    requires Consistent(z)
    ensures FillProgress(z, z, market, gaps, 0, servers, exchange, 0)
  {
    assert NewScores(z, z) == {};
  }

  lemma FillNext(z: ZSet, before: ZSet, market: set<Kline>, gaps: seq<Gap>, i: nat, servers: Servers,
      exchange: string, filled: nat, klines: seq<Kline>)
    requires i < |gaps| && FillProgress(z, before, market, gaps, i, servers, exchange, filled) && IsMarket(market)
    requires Elements(klines) <= Within(market, gaps[i].startTs, gaps[i].endTs) && NoSharedTimestamp(klines)
    requires ServerReliable(servers, exchange, i) ==>
      Elements(klines) == Within(market, gaps[i].startTs, gaps[i].endTs)
    ensures klines == [] ==> UpsertAll(before, klines) == before
    ensures
      FillProgress(z, UpsertAll(before, klines), market, gaps, i + 1, servers, exchange, filled + |klines|)
  {
    var after := UpsertAll(before, klines);
    FillStep(z, before, after, market, gaps[..i], gaps[i], klines);
    assert gaps[..i] + [gaps[i]] == gaps[..i + 1];
    FillNextGaps(before, after, market, gaps, i, servers, exchange, klines);
    if Vacant(gaps, z) {
      FillStepCount(z, before, after, market, gaps, i, klines);
    }
  }

  lemma FillNextGaps(before: ZSet, after: ZSet, market: set<Kline>, gaps: seq<Gap>, i: nat, servers: Servers,
      exchange: string, klines: seq<Kline>)
    requires i < |gaps| && Consistent(before) && IsMarket(market) && after == UpsertAll(before, klines)
    requires Elements(klines) <= Within(market, gaps[i].startTs, gaps[i].endTs)
    requires ServerReliable(servers, exchange, i) ==>
      Elements(klines) == Within(market, gaps[i].startTs, gaps[i].endTs)
    requires ReliablyFilled(before, market, gaps, i, servers, exchange)
    ensures ReliablyFilled(after, market, gaps, i + 1, servers, exchange)
  {
    FillStepGaps(before, after, market, gaps, i, klines);
  }

  lemma FillEnd(z: ZSet, now: ZSet, market: set<Kline>, gaps: seq<Gap>, servers: Servers, exchange: string, filled: nat)
    requires FillProgress(z, now, market, gaps, |gaps|, servers, exchange, filled)
    ensures FilledFrom(z, now, market, gaps)
    ensures Reliable(servers, exchange) ==> AllFilled(now, market, gaps)
  {
    assert gaps[..|gaps|] == gaps;
    if Reliable(servers, exchange) {
      forall c | c in market && Covered(gaps, c.timestamp) ensures At(now, c.timestamp) == {Stored(c)} {
        var n :| 0 <= n < |gaps| && Covers(gaps[n], c.timestamp);
        assert ServerReliable(servers, exchange, n);
        assert GapFilled(now, market, gaps[n]);
      }
    }
  }

  method FetchGap(exchange: string, servers: Servers, n: nat, gap: Gap, ghost market: set<Kline>)
      returns (klines: seq<Kline>)
    requires ServerTruthful(servers, exchange, n, market) && IsMarket(market)
    ensures Elements(klines) <= Within(market, gap.startTs, gap.endTs) && NoSharedTimestamp(klines)
    ensures ServerReliable(servers, exchange, n) ==> Elements(klines) == Within(market, gap.startTs, gap.endTs)
  {
    if exchange == "binance" {
      MarketSpaced(market);
      klines := BinanceFetchMinutes(servers.binance(n), gap.startTs, gap.endTs, market);
    } else {
      klines := OkxFetchMinutes(servers.okx(n), gap.startTs, gap.endTs, market);
    }
  }

  lemma MarketSpaced(market: set<Kline>)
    requires IsMarket(market)
    ensures Spaced(market, MINUTE_MS)
  {
  }

  lemma FillStep(z: ZSet, before: ZSet, after: ZSet, market: set<Kline>, gaps: seq<Gap>, gap: Gap, klines: seq<Kline>)
    requires FilledFrom(z, before, market, gaps) && IsMarket(market)
    requires Elements(klines) <= Within(market, gap.startTs, gap.endTs)
    requires after == UpsertAll(before, klines)
    ensures FilledFrom(z, after, market, gaps + [gap])
  {
    UpsertAllEffect(before, klines, 0);
    forall t
      ensures At(after, t) == At(z, t)
           || (Covered(gaps + [gap], t) && exists c | c in market :: c.timestamp == t && At(after, t) == {Stored(c)})
    {
      FillStepAt(before, after, market, gap, klines, t);
      CoveredMore(gaps, gap, t);
      assert At(before, t) == At(z, t) || Covered(gaps, t);
    }
  }

  /** Filling one gap keeps the other gaps filled, and fills this one if everything was fetched. */
  lemma FillStepGaps(before: ZSet, after: ZSet, market: set<Kline>, gaps: seq<Gap>, i: nat, klines: seq<Kline>)
    requires Consistent(before) && IsMarket(market) && i < |gaps|
    requires Elements(klines) <= Within(market, gaps[i].startTs, gaps[i].endTs)
    requires after == UpsertAll(before, klines)
    ensures forall n | 0 <= n < |gaps| && GapFilled(before, market, gaps[n]) :: GapFilled(after, market, gaps[n])
    ensures Elements(klines) == Within(market, gaps[i].startTs, gaps[i].endTs) ==> GapFilled(after, market, gaps[i])
  {
    forall c | c in market
      ensures At(before, c.timestamp) == {Stored(c)} ==> At(after, c.timestamp) == {Stored(c)}
      ensures c in klines ==> At(after, c.timestamp) == {Stored(c)}
    {
      FillStepAt(before, after, market, gaps[i], klines, c.timestamp);
      LastWithMeaning(klines, c.timestamp);
    }
    if Elements(klines) == Within(market, gaps[i].startTs, gaps[i].endTs) {
      forall c | c in market && Covers(gaps[i], c.timestamp) ensures c in klines {
        assert c in Elements(klines);
      }
    }
  }

  ghost function TimesOf(ks: seq<Kline>): set<int> {
    set k | k in ks :: k.timestamp
  }

  lemma {:induction false} TimesCount(ks: seq<Kline>)
    requires NoSharedTimestamp(ks)
    ensures |TimesOf(ks)| == |ks|
  {
    if ks != [] {
      var front, last := ks[..|ks| - 1], ks[|ks| - 1];
      TimesCount(front);
      assert TimesOf(ks) == TimesOf(front) + {last.timestamp} by { assert ks == front + [last]; }
      assert last.timestamp !in TimesOf(front);
    }
  }

  /** Every candle fetched for a vacant gap adds one timestamp. */
  lemma FillStepCount(z: ZSet, before: ZSet, after: ZSet, market: set<Kline>, gaps: seq<Gap>, i: nat,
      klines: seq<Kline>)
    requires Vacant(gaps, z) && i < |gaps| && FilledFrom(z, before, market, gaps[..i]) && Consistent(before)
    requires IsMarket(market) && NoSharedTimestamp(klines)
    requires Elements(klines) <= Within(market, gaps[i].startTs, gaps[i].endTs)
    requires after == UpsertAll(before, klines)
    ensures |NewScores(z, after)| == |NewScores(z, before)| + |klines|
  {
    forall t ensures t in Scores(after) <==> t in Scores(before) || t in TimesOf(klines) {
      StepScore(before, after, market, gaps[i], klines, t);
    }
    forall t | t in TimesOf(klines) ensures t !in Scores(before) && t !in Scores(z) {
      TimeIsVacant(z, before, market, gaps, i, klines, t);
    }
    TimesCount(klines);
    CountMore(Scores(z), Scores(before), Scores(after), TimesOf(klines));
  }

  lemma StepScore(before: ZSet, after: ZSet, market: set<Kline>, gap: Gap, klines: seq<Kline>, t: int)
    requires Consistent(before) && IsMarket(market)
    requires Elements(klines) <= Within(market, gap.startTs, gap.endTs) && after == UpsertAll(before, klines)
    ensures t in Scores(after) <==> t in Scores(before) || t in TimesOf(klines)
  {
    FillStepAt(before, after, market, gap, klines, t);
    LastWithMeaning(klines, t);
    ScoreIffAt(before, t);
    ScoreIffAt(after, t);
  }

  lemma CountMore(first: set<int>, before: set<int>, after: set<int>, more: set<int>)
    requires forall t :: t in after <==> t in before || t in more
    requires forall t | t in more :: t !in before && t !in first
    ensures |after - first| == |before - first| + |more|
  {
    forall t ensures t in after - first <==> t in before - first || t in more {
      assert t in more ==> t !in before && t !in first;
      assert t in after <==> t in before || t in more;
    }
    assert after - first == (before - first) + more;
    forall t ensures !(t in before - first && t in more) {
      assert t in more ==> t !in before && t !in first;
    }
    assert (before - first) * more == {};
  }

  lemma TimeIsVacant(z: ZSet, before: ZSet, market: set<Kline>, gaps: seq<Gap>, i: nat, klines: seq<Kline>, t: int)
    requires Vacant(gaps, z) && i < |gaps| && FilledFrom(z, before, market, gaps[..i])
    requires IsMarket(market) && Elements(klines) <= Within(market, gaps[i].startTs, gaps[i].endTs)
    requires t in TimesOf(klines)
    ensures t !in Scores(before) && t !in Scores(z)
  {
    var k :| k in klines && k.timestamp == t;
    assert k in Elements(klines);
    assert Covers(gaps[i], t);
    assert Covered(gaps, t) && MinuteAligned(t);
    assert !Covered(gaps[..i], t);
    ScoreIffAt(z, t);
    ScoreIffAt(before, t);
    assert At(before, t) == At(z, t);
  }

  /** One score under the writing of one gap's candles. */
  lemma FillStepAt(before: ZSet, after: ZSet, market: set<Kline>, gap: Gap, klines: seq<Kline>, t: int)
    requires Consistent(before) && IsMarket(market)
    requires Elements(klines) <= Within(market, gap.startTs, gap.endTs)
    requires after == UpsertAll(before, klines)
    ensures Consistent(after)
    ensures LastWith(klines, t).None? ==> At(after, t) == At(before, t)
    ensures LastWith(klines, t).Some? ==> Covers(gap, t)
    ensures LastWith(klines, t).Some? ==> exists c | c in market :: c.timestamp == t && At(after, t) == {Stored(c)}
  {
    UpsertAllEffect(before, klines, t);
    LastWithMeaning(klines, t);
    if LastWith(klines, t).Some? {
      var c := LastWith(klines, t).value;
      assert c in Elements(klines);
    }
  }

  lemma CoveredMore(gaps: seq<Gap>, gap: Gap, t: int)
    ensures Covered(gaps + [gap], t) <==> Covered(gaps, t) || Covers(gap, t)
  {
    var more := gaps + [gap];
    assert more[|gaps|] == gap;
    assert forall i | 0 <= i < |gaps| :: more[i] == gaps[i];
  }

  /**
    The repaired minutes of [lo, hi]: every timestamp that was stored keeps exactly one of its members, every
    other timestamp holds the market's candle or nothing, and outside the window nothing has changed.
  */
  ghost predicate RepairedMinutes(before: ZSet, after: ZSet, market: set<Kline>, lo: int, hi: int) {
    && Consistent(after) && ScoresAligned(after)
    && (forall t | !(lo <= t <= hi) :: At(after, t) == At(before, t))
    && (forall t | lo <= t <= hi && t in Scores(before) :: OneOf(after, before, t))
    && (forall t | lo <= t <= hi && t !in Scores(before) :: At(after, t) == {} || FromMarket(after, market, t))
  }

  /** `after` keeps one of the members that `before` has for `t`. */
  ghost predicate OneOf(after: ZSet, before: ZSet, t: int) {
    exists m :: m in At(before, t) && At(after, t) == {m}
  }

  ghost predicate FromMarket(after: ZSet, market: set<Kline>, t: int) {
    exists c | c in market :: c.timestamp == t && At(after, t) == {Stored(c)}
  }

  /** No candle of the market is missing in [lo, hi]. */
  ghost predicate NothingMissing(after: ZSet, market: set<Kline>, lo: int, hi: int) {
    forall c | c in Within(market, lo, hi) :: c.timestamp in Scores(after)
  }

  /** Repairing minutes loses no timestamp. */
  lemma RepairKeepsScores(before: ZSet, after: ZSet, market: set<Kline>, lo: int, hi: int)
    requires RepairedMinutes(before, after, market, lo, hi)
    ensures Scores(before) <= Scores(after)
    ensures |NewScores(before, after)| == 0 <==> Scores(after) == Scores(before)
  {
    forall t | t in Scores(before) ensures t in Scores(after) {
      ScoreIffAt(before, t);
      ScoreIffAt(after, t);
    }
    if |NewScores(before, after)| == 0 {
      assert NewScores(before, after) == {};
    }
  }

  /**
    With servers that do not fail, the timestamps of the window are the old ones and the market's, and each is
    held by exactly one member.
  */
  lemma RepairedTimestamps(before: ZSet, after: ZSet, market: set<Kline>, lo: int, hi: int, t: int)
    requires RepairedMinutes(before, after, market, lo, hi) && NothingMissing(after, market, lo, hi)
    requires lo <= t <= hi
    ensures t in Scores(after) <==> t in Scores(before) || exists c | c in market :: c.timestamp == t
    ensures t in Scores(after) ==> Single(after, t)
  {
    ScoreIffAt(after, t);
    if t !in Scores(before) && exists c | c in market :: c.timestamp == t {
      var c :| c in market && c.timestamp == t;
      assert c in Within(market, lo, hi);
    }
  }

  lemma ScoreIffAt(z: ZSet, t: int)
    ensures t in Scores(z) <==> At(z, t) != {}
  {
    if t in Scores(z) {
      var m :| m in z && z[m] == t;
      assert m in At(z, t);
    }
  }

  lemma MinutesRepaired(z0: ZSet, z1: ZSet, z2: ZSet, market: set<Kline>, gaps: seq<Gap>, lo: int, hi: int)
    requires IsMarket(market) && Consistent(z0) && ScoresAligned(z0) && MinuteAligned(lo) && MinuteAligned(hi)
      && lo <= hi
    requires Deduplicated(z0, z1, lo, hi)
    requires gaps == GapsUpTo(WindowScores(z1, lo, hi), lo, MINUTE_MS, hi)
    requires FilledFrom(z1, z2, market, gaps)
    ensures RepairedMinutes(z0, z2, market, lo, hi)
    ensures AllFilled(z2, market, gaps) ==> NothingMissing(z2, market, lo, hi)
  {
    forall t
      ensures !(lo <= t <= hi) ==> At(z2, t) == At(z0, t)
      ensures lo <= t <= hi && t in Scores(z0) ==> OneOf(z2, z0, t)
      ensures lo <= t <= hi && t !in Scores(z0) ==> At(z2, t) == {} || FromMarket(z2, market, t)
      ensures At(z2, t) != {} ==> MinuteAligned(t)
    {
      MinuteRepaired(z0, z1, z2, market, gaps, lo, hi, t);
    }
    forall m | m in z2 ensures MinuteAligned(z2[m]) {
      assert m in At(z2, z2[m]);
    }
    if AllFilled(z2, market, gaps) {
      forall c | c in Within(market, lo, hi) ensures c.timestamp in Scores(z2) {
        MinuteRepaired(z0, z1, z2, market, gaps, lo, hi, c.timestamp);
        CoveredIffMissing(z1, gaps, lo, hi, c.timestamp);
        ScoreIffAt(z2, c.timestamp);
        ScoreIffAt(z1, c.timestamp);
      }
    }
  }

  /** The gaps cover exactly the minutes of the window that are not stored. */
  lemma CoveredIffMissing(z1: ZSet, gaps: seq<Gap>, lo: int, hi: int, t: int)
    requires MinuteAligned(lo) && MinuteAligned(hi) && lo <= hi && MinuteAligned(t)
    requires gaps == GapsUpTo(WindowScores(z1, lo, hi), lo, MINUTE_MS, hi)
    ensures Covered(gaps, t) <==> lo <= t <= hi && At(z1, t) == {}
  {
    var present := WindowScores(z1, lo, hi);
    CoveredIffAbsent(present, lo, hi, t);
    ScoreIffAt(z1, t);
    assert lo <= t <= hi ==> (t in present <==> t in Scores(z1));
  }

  lemma GapsAreVacant(z1: ZSet, gaps: seq<Gap>, lo: int, hi: int)
    requires MinuteAligned(lo) && MinuteAligned(hi) && lo <= hi
    requires gaps == GapsUpTo(WindowScores(z1, lo, hi), lo, MINUTE_MS, hi)
    ensures Vacant(gaps, z1)
  {
    GapsAreExactCover(WindowScores(z1, lo, hi), lo, MINUTE_MS, hi);
    forall t | MinuteAligned(t) && Covered(gaps, t) ensures t !in Scores(z1) {
      CoveredIffMissing(z1, gaps, lo, hi, t);
      ScoreIffAt(z1, t);
    }
  }

  lemma CoveredIffAbsent(present: set<int>, lo: int, hi: int, t: int)
    requires MinuteAligned(lo) && MinuteAligned(hi) && lo <= hi && MinuteAligned(t)
    ensures Covered(GapsUpTo(present, lo, MINUTE_MS, hi), t) <==> lo <= t <= hi && t !in present
  {
    var gaps := GapsUpTo(present, lo, MINUTE_MS, hi);
    GapsAreExactCover(present, lo, MINUTE_MS, hi);
    TickMeaning(t, lo, MINUTE_MS, hi);
    if Covered(gaps, t) {
      var i :| 0 <= i < |gaps| && Covers(gaps[i], t);
      assert IsTick(gaps[i].startTs, lo, MINUTE_MS, hi) && IsTick(gaps[i].endTs, lo, MINUTE_MS, hi);
    }
  }

  lemma DedupAt(z0: ZSet, z1: ZSet, lo: int, hi: int, t: int)
    requires Deduplicated(z0, z1, lo, hi)
    ensures !(lo <= t <= hi) ==> At(z1, t) == At(z0, t)
    ensures lo <= t <= hi && t in Scores(z0) ==> OneOf(z1, z0, t)
    ensures t !in Scores(z0) ==> At(z1, t) == {}
  {
    if lo <= t <= hi && t in Scores(z0) {
      var m :| m in z0 && z0[m] == t;
      assert InRange(z0, m, lo, hi);
      var n :| At(z1, t) == {n};
      assert n in At(z1, t);
      assert n in At(z0, t);
    }
  }

  lemma MinuteRepaired(z0: ZSet, z1: ZSet, z2: ZSet, market: set<Kline>, gaps: seq<Gap>, lo: int, hi: int, t: int)
    requires IsMarket(market) && ScoresAligned(z0) && MinuteAligned(lo) && MinuteAligned(hi) && lo <= hi
    requires Deduplicated(z0, z1, lo, hi)
    requires gaps == GapsUpTo(WindowScores(z1, lo, hi), lo, MINUTE_MS, hi)
    requires FilledFrom(z1, z2, market, gaps)
    ensures !(lo <= t <= hi) ==> At(z2, t) == At(z0, t)
    ensures lo <= t <= hi && t in Scores(z0) ==> OneOf(z2, z0, t)
    ensures lo <= t <= hi && t !in Scores(z0) ==> At(z2, t) == {} || FromMarket(z2, market, t)
    ensures At(z2, t) != {} ==> MinuteAligned(t)
    ensures At(z1, t) != {} ==> At(z2, t) == At(z1, t)
  {
    DedupAt(z0, z1, lo, hi, t);
    ScoreIffAt(z0, t);
    if At(z2, t) != At(z1, t) {
      var c :| c in market && c.timestamp == t && At(z2, t) == {Stored(c)};
      CoveredIffMissing(z1, gaps, lo, hi, t);
    }
  }

  // ---------------------------------------------------------------------------------------------
  // process_exchange_batch: the coarser bars
  // ---------------------------------------------------------------------------------------------

  /** Every minute of the bar starting at `a` is stored. */
  ghost predicate FullyCovered(minutes: ZSet, a: int, multiplier: nat) {
    forall i | 0 <= i < multiplier :: a + i * MINUTE_MS in Scores(minutes)
  }

  /** The only bar stored for `a` is the aggregation of the minutes that are stored under its timestamps. */
  ghost predicate HoldsBarOfMinutes(bars: ZSet, minutes: ZSet, a: int, multiplier: nat) {
    exists g: seq<Kline> ::
      && g != [] && |g| == multiplier && ConsecutiveMinutes(g, a)
      && (forall i | 0 <= i < |g| :: exists m :: At(minutes, g[i].timestamp) == {m} && m.kline == g[i])
      && At(bars, a) == {Stored(Bar(a, g))}
  }

  /** A stored bar built from minutes some of which may be stored more than once: each minute is one of its members. */
  ghost predicate HoldsBarOfStored(bars: ZSet, minutes: ZSet, a: int, multiplier: nat) {
    exists g: seq<Kline> ::
      && g != [] && |g| == multiplier && ConsecutiveMinutes(g, a)
      && (forall i | 0 <= i < |g| :: exists m :: m in At(minutes, g[i].timestamp) && m.kline == g[i])
      && At(bars, a) == {Stored(Bar(a, g))}
  }

  /**
    The bar starting at `a` has all its minutes in the window the aggregation reads: from the start of the bar that
    `lo` falls into, up to `hi`.
  */
  ghost predicate BarFits(a: int, width: int, lo: int, hi: int)
    requires width > 0
  {
    a % width == 0 && AlignDown(lo, width) <= a <= hi && a + width - MINUTE_MS <= hi
  }

  /**
    The rebuilt bars, score by score. Outside the window that the aggregation reads, and in front of `lo` where
    something was stored, nothing changes. A score of [lo, hi] that was there keeps exactly one of its members. A
    score that was not there holds the bar built from its minutes if it is a bar with all of them stored, and
    nothing otherwise.
  */
  ghost predicate RebuiltBars(before: ZSet, after: ZSet, minutes: ZSet, width: int, multiplier: nat, lo: int, hi: int)
    requires width > 0
  {
    forall a :: RebuiltAt(before, after, minutes, width, multiplier, lo, hi, a)
  }

  ghost predicate RebuiltAt(before: ZSet, after: ZSet, minutes: ZSet, width: int, multiplier: nat, lo: int, hi: int,
      a: int)
    requires width > 0
  {
    if !(AlignDown(lo, width) <= a <= hi) then At(after, a) == At(before, a)
    else if a in Scores(before) then
      if a < lo then At(after, a) == At(before, a) else OneOf(after, before, a)
    else if BarFits(a, width, lo, hi) && FullyCovered(minutes, a, multiplier) then
      if a < lo then HoldsBarOfStored(after, minutes, a, multiplier)
      else HoldsBarOfMinutes(after, minutes, a, multiplier)
    else At(after, a) == {}
  }

  /** A bar whose minutes are all stored exists exactly once; so does a new one that `lo` falls into. */
  lemma EveryFullBarOnce(before: ZSet, after: ZSet, minutes: ZSet, width: int, multiplier: nat, lo: int, hi: int,
      a: int)
    requires width > 0 && RebuiltBars(before, after, minutes, width, multiplier, lo, hi)
    requires BarFits(a, width, lo, hi) && FullyCovered(minutes, a, multiplier)
    requires lo <= a || a !in Scores(before)
    ensures Single(after, a)
  {
    assert RebuiltAt(before, after, minutes, width, multiplier, lo, hi, a);
  }

  lemma BarsRebuilt(t0: ZSet, t1: ZSet, t2: ZSet, z: ZSet, ks: seq<Kline>, written: seq<Kline>, width: int, n: nat,
      lo: int, hi: int)
    requires n > 0 && width == n * MINUTE_MS
    requires Consistent(t0) && Deduplicated(t0, t1, lo, hi) && t2 == UpsertAll(t1, written)
    requires IsMinuteList(ks, z, AlignDown(lo, width), hi) && Consistent(z)
    requires forall t | lo <= t <= hi && t in Scores(z) :: Single(z, t)
    requires NewBars(written, WindowScores(t1, AlignDown(lo, width), hi), ks, width, n)
    ensures RebuiltBars(t0, t2, z, width, n, lo, hi)
  {
    AlignDownMeaning(lo, width);
    forall a ensures RebuiltAt(t0, t2, z, width, n, lo, hi, a) {
      DedupAt(t0, t1, lo, hi, a);
      UpsertAllEffect(t1, written, a);
      LastWithMeaning(written, a);
      ScoreIffAt(t0, a);
      ScoreIffAt(t1, a);
      var existing := WindowScores(t1, AlignDown(lo, width), hi);
      assert AlignDown(lo, width) <= a <= hi ==> (a in existing <==> a in Scores(t1));
      if BarFits(a, width, lo, hi) {
        CompleteIffCovered(z, ks, AlignDown(lo, width), hi, a, n);
        assert Complete(ks, a, n) && a !in existing ==> HasMinute(written, a);
      }
      if LastWith(written, a).Some? {
        WrittenBar(LastWith(written, a).value, z, ks, lo, hi, n, width);
      }
    }
  }

  lemma CompleteIffCovered(z: ZSet, ks: seq<Kline>, from: int, hi: int, a: int, n: nat)
    requires IsMinuteList(ks, z, from, hi) && Consistent(z)
    requires from <= a && a + (n - 1) * MINUTE_MS <= hi
    ensures Complete(ks, a, n) <==> FullyCovered(z, a, n)
  {
    forall i | 0 <= i < n ensures HasMinute(ks, a + i * MINUTE_MS) <==> a + i * MINUTE_MS in Scores(z) {
      MinuteIffScore(z, ks, from, hi, a + i * MINUTE_MS);
    }
  }

  lemma MinuteIffScore(z: ZSet, ks: seq<Kline>, from: int, hi: int, t: int)
    requires IsMinuteList(ks, z, from, hi) && Consistent(z) && from <= t <= hi
    ensures HasMinute(ks, t) <==> t in Scores(z)
  {
    if HasMinute(ks, t) {
      var k :| k in ks && k.timestamp == t;
      assert IsStored(k, z, from, hi);
    }
    if t in Scores(z) {
      var m :| m in z && z[m] == t;
      assert InRange(z, m, from, hi);
    }
  }

  /** A written bar fits the window and is made of the minutes stored in it. */
  lemma WrittenBar(b: Kline, z: ZSet, ks: seq<Kline>, lo: int, hi: int, n: nat, width: int)
    requires n > 0 && width == n * MINUTE_MS
    requires IsMinuteList(ks, z, AlignDown(lo, width), hi) && Consistent(z)
    requires forall t | lo <= t <= hi && t in Scores(z) :: Single(z, t)
    requires IsBarOf(b, ks, n) && b.timestamp % width == 0
    ensures Complete(ks, b.timestamp, n) && BarFits(b.timestamp, width, lo, hi)
    ensures forall bars: ZSet :: At(bars, b.timestamp) == {Stored(b)} ==>
      HoldsBarOfStored(bars, z, b.timestamp, n) &&
      (lo <= b.timestamp ==> HoldsBarOfMinutes(bars, z, b.timestamp, n))
  {
    var a := b.timestamp;
    var g: seq<Kline> :| g != [] && |g| == n && ConsecutiveMinutes(g, a) && (forall k | k in g :: k in ks)
        && b == Bar(a, g);
    FullHasMinutes(ks, g, a, n);
    forall i | 0 <= i < |g|
      ensures AlignDown(lo, width) <= g[i].timestamp <= hi
      ensures exists m :: m in At(z, g[i].timestamp) && m.kline == g[i]
    {
      assert g[i] in g;
      StoredMinute(z, ks, AlignDown(lo, width), hi, g[i]);
    }
    assert g[0].timestamp == a && g[n - 1].timestamp == a + (n - 1) * MINUTE_MS;
    if lo <= a {
      forall i | 0 <= i < |g| ensures exists m :: At(z, g[i].timestamp) == {m} && m.kline == g[i] {
        assert g[i] in g;
        OnlyMember(z, ks, AlignDown(lo, width), lo, hi, g[i]);
      }
    }
  }

  lemma StoredMinute(z: ZSet, ks: seq<Kline>, from: int, hi: int, k: Kline)
    requires IsMinuteList(ks, z, from, hi) && Consistent(z) && k in ks
    ensures from <= k.timestamp <= hi && exists m :: m in At(z, k.timestamp) && m.kline == k
  {
    assert IsStored(k, z, from, hi);
    var m :| InRange(z, m, from, hi) && m.kline == k;
    assert m in At(z, k.timestamp);
  }

  lemma OnlyMember(z: ZSet, ks: seq<Kline>, from: int, lo: int, hi: int, k: Kline)
    requires IsMinuteList(ks, z, from, hi) && Consistent(z) && k in ks && lo <= k.timestamp <= hi
    requires forall t | lo <= t <= hi && t in Scores(z) :: Single(z, t)
    ensures exists m :: At(z, k.timestamp) == {m} && m.kline == k
  {
    assert IsStored(k, z, from, hi);
    var m :| InRange(z, m, from, hi) && m.kline == k;
    assert m in At(z, k.timestamp);
    assert k.timestamp in Scores(z);
    var n :| At(z, k.timestamp) == {n};
  }

  // ---------------------------------------------------------------------------------------------
  // process_exchange_batch
  // ---------------------------------------------------------------------------------------------

  function MinuteKey(exchange: string, symbol: string): Key {
    Key(exchange, symbol, "1m")
  }

  /** What is stored of one symbol: its minutes and, for each target interval, its bars. */
  datatype SymbolData = SymbolData(minutes: ZSet, bars: seq<ZSet>)

  ghost function DataOf(r: Redis, exchange: string, symbol: string): (d: SymbolData)
    reads r
    ensures |d.bars| == |TARGETS|
  {
    SymbolData(
      r.Get(MinuteKey(exchange, symbol)),
      seq(|TARGETS|, i requires 0 <= i < |TARGETS| reads r => r.Get(Key(exchange, symbol, TARGETS[i]))))
  }

  /** The data is in order: every member under its own timestamp, the minutes on the minute grid. */
  ghost predicate InOrder(d: SymbolData) {
    && Consistent(d.minutes) && ScoresAligned(d.minutes)
    && (forall i | 0 <= i < |d.bars| :: Consistent(d.bars[i]))
  }

  lemma TargetsDistinct()
    ensures forall i, j | 0 <= i < j < |TARGETS| :: TARGETS[i] != TARGETS[j]
    ensures forall i | 0 <= i < |TARGETS| :: TARGETS[i] != "1m"
  {
  }

  /** Step 1 and 2: the minutes. */
  method RepairMinutes(r: Redis, exchange: string, symbol: string, startMs: int, endMs: int, servers: Servers,
      ghost market: set<Kline>)
    returns (filled: nat)
    requires startMs <= endMs && MinuteAligned(startMs) && MinuteAligned(endMs)
    requires Consistent(r.Get(MinuteKey(exchange, symbol))) && ScoresAligned(r.Get(MinuteKey(exchange, symbol)))
    requires Truthful(servers, exchange, market) && IsMarket(market)
    modifies r
    ensures forall k | k != MinuteKey(exchange, symbol) :: r.Get(k) == old(r.Get(k))
    ensures RepairedMinutes(old(r.Get(MinuteKey(exchange, symbol))), r.Get(MinuteKey(exchange, symbol)), market,
      startMs, endMs)
    ensures Reliable(servers, exchange) ==> NothingMissing(r.Get(MinuteKey(exchange, symbol)), market, startMs, endMs)
    ensures filled == |NewScores(old(r.Get(MinuteKey(exchange, symbol))), r.Get(MinuteKey(exchange, symbol)))|
  {
    var key := MinuteKey(exchange, symbol);
    ghost var z0 := r.Get(key);
    var _, _ := r.Dedup(key, startMs, endMs);
    ghost var z1 := r.Get(key);
    var existing := ScoresIn(r, key, startMs, endMs);
    assert (endMs - startMs) % MINUTE_MS == 0;
    var gaps := ScanGaps(existing, startMs, endMs, MINUTE_MS);
    DedupKeepsScores(z0, z1, startMs, endMs);
    GapsAreVacant(z1, gaps, startMs, endMs);
    filled := FillGaps(r, exchange, symbol, gaps, servers, market);
    MinutesRepaired(z0, z1, r.Get(key), market, gaps, startMs, endMs);
  }

  /** Step 3: remove the duplicates of every target interval. */
  method DedupTargets(r: Redis, exchange: string, symbol: string, startMs: int, endMs: int)
    modifies r
    ensures forall k | !IsTargetKey(k, exchange, symbol) :: r.Get(k) == old(r.Get(k))
    ensures forall i | 0 <= i < |TARGETS| ::
      Deduplicated(old(r.Get(Key(exchange, symbol, TARGETS[i]))), r.Get(Key(exchange, symbol, TARGETS[i])), startMs,
          endMs)
  {
    TargetsDistinct();
    for i := 0 to |TARGETS|
      invariant forall k | !IsTargetKey(k, exchange, symbol) :: r.Get(k) == old(r.Get(k))
      invariant forall j | i <= j < |TARGETS| ::
        r.Get(Key(exchange, symbol, TARGETS[j])) == old(r.Get(Key(exchange, symbol, TARGETS[j])))
      invariant forall j | 0 <= j < i ::
        Deduplicated(old(r.Get(Key(exchange, symbol, TARGETS[j]))), r.Get(Key(exchange, symbol, TARGETS[j])),
            startMs, endMs)
    {
      var _, _ := r.Dedup(Key(exchange, symbol, TARGETS[i]), startMs, endMs);
    }
  }

  ghost predicate IsTargetKey(k: Key, exchange: string, symbol: string) {
    k.exchange == exchange && k.symbol == symbol && k.interval in TARGETS
  }

  /** Step 4: write the bars that are missing and whose minutes are complete. */
  method WriteTargets(r: Redis, exchange: string, symbol: string, startMs: int, endMs: int, ghost before: seq<ZSet>)
    requires Consistent(r.Get(MinuteKey(exchange, symbol))) && ScoresAligned(r.Get(MinuteKey(exchange, symbol)))
    requires forall t | startMs <= t <= endMs && t in Scores(r.Get(MinuteKey(exchange, symbol))) ::
      Single(r.Get(MinuteKey(exchange, symbol)), t)
    requires |before| == |TARGETS|
    requires forall i | 0 <= i < |TARGETS| ::
      Consistent(before[i]) && Deduplicated(before[i], r.Get(Key(exchange, symbol, TARGETS[i])), startMs, endMs)
    modifies r
    ensures forall k | !IsTargetKey(k, exchange, symbol) :: r.Get(k) == old(r.Get(k))
    ensures forall i | 0 <= i < |TARGETS| ::
      RebuiltBars(before[i], r.Get(Key(exchange, symbol, TARGETS[i])), r.Get(MinuteKey(exchange, symbol)),
                  TargetMs(TARGETS[i]), Multiplier(TARGETS[i]), startMs, endMs)
  {
    TargetsDistinct();
    ghost var z := r.Get(MinuteKey(exchange, symbol));
    for i := 0 to |TARGETS|
      invariant forall k | !IsTargetKey(k, exchange, symbol) :: r.Get(k) == old(r.Get(k))
      invariant forall j | i <= j < |TARGETS| ::
        r.Get(Key(exchange, symbol, TARGETS[j])) == old(r.Get(Key(exchange, symbol, TARGETS[j])))
      invariant forall j | 0 <= j < i ::
        RebuiltBars(before[j], r.Get(Key(exchange, symbol, TARGETS[j])), z, TargetMs(TARGETS[j]),
            Multiplier(TARGETS[j]), startMs, endMs)
    {
      WriteTarget(r, exchange, symbol, TARGETS[i], startMs, endMs, before[i]);
    }
  }

  method WriteTarget(r: Redis, exchange: string, symbol: string, target: string, startMs: int, endMs: int,
      ghost before: ZSet)
    requires target in TARGETS
    requires Consistent(r.Get(MinuteKey(exchange, symbol))) && ScoresAligned(r.Get(MinuteKey(exchange, symbol)))
    requires forall t | startMs <= t <= endMs && t in Scores(r.Get(MinuteKey(exchange, symbol))) ::
      Single(r.Get(MinuteKey(exchange, symbol)), t)
    requires Consistent(before) && Deduplicated(before, r.Get(Key(exchange, symbol, target)), startMs, endMs)
    modifies r
    ensures forall k | k != Key(exchange, symbol, target) :: r.Get(k) == old(r.Get(k))
    ensures RebuiltBars(before, r.Get(Key(exchange, symbol, target)), old(r.Get(MinuteKey(exchange, symbol))),
                        TargetMs(target), Multiplier(target), startMs, endMs)
  {
    ghost var z, t1 := r.Get(MinuteKey(exchange, symbol)), r.Get(Key(exchange, symbol, target));
    ghost var minutes, written;
    var _, m, w := AggregateAndWrite(r, exchange, symbol, target, startMs, endMs);
    minutes, written := m, w;
    BarsRebuilt(before, t1, r.Get(Key(exchange, symbol, target)), z, minutes, written, TargetMs(target),
        Multiplier(target), startMs, endMs);
  }

  ghost predicate IsSymbolKey(k: Key, exchange: string, symbol: string) {
    k.exchange == exchange && k.symbol == symbol && (k.interval == "1m" || k.interval in TARGETS)
  }

  /**
    The whole repair of one symbol. `filled` is the number of minutes stored now that were not before, and the bars
    are rebuilt exactly when there is one.
  */
  ghost predicate SymbolRepaired(before: SymbolData, after: SymbolData, market: set<Kline>, reliable: bool,
      filled: nat, lo: int, hi: int)
    requires |before.bars| == |after.bars| == |TARGETS|
  {
    && RepairedMinutes(before.minutes, after.minutes, market, lo, hi)
    && (reliable ==> NothingMissing(after.minutes, market, lo, hi))
    && filled == |NewScores(before.minutes, after.minutes)|
    && (Scores(after.minutes) == Scores(before.minutes) ==> after.bars == before.bars)
    && (Scores(after.minutes) != Scores(before.minutes) ==> forall i | 0 <= i < |TARGETS| ::
          RebuiltBars(before.bars[i], after.bars[i], after.minutes, TargetMs(TARGETS[i]), Multiplier(TARGETS[i]),
                      lo, hi))
  }

  /** Once nothing is missing, a further run over the same window and market fills nothing and changes nothing. */
  lemma SecondRunChangesNothing(d0: SymbolData, d1: SymbolData, d2: SymbolData, market: set<Kline>, reliable: bool,
      first: nat, second: nat, lo: int, hi: int)
    requires |d0.bars| == |d1.bars| == |d2.bars| == |TARGETS|
    requires SymbolRepaired(d0, d1, market, true, first, lo, hi)
    requires SymbolRepaired(d1, d2, market, reliable, second, lo, hi)
    ensures second == 0 && d2 == d1
  {
    SecondRepair(d0.minutes, d1.minutes, d2.minutes, market, lo, hi);
    assert NewScores(d1.minutes, d2.minutes) == {};
  }

  /** The repair leaves the data in order, so runs can follow one another. */
  lemma RepairKeepsOrder(before: SymbolData, after: SymbolData, market: set<Kline>, reliable: bool, filled: nat,
      lo: int, hi: int)
    requires |before.bars| == |after.bars| == |TARGETS|
    requires InOrder(before) && SymbolRepaired(before, after, market, reliable, filled, lo, hi)
    ensures InOrder(after)
  {
    forall i | 0 <= i < |after.bars| ensures Consistent(after.bars[i]) {
      if Scores(after.minutes) != Scores(before.minutes) {
        RebuiltConsistent(before.bars[i], after.bars[i], after.minutes, TargetMs(TARGETS[i]), Multiplier(TARGETS[i]),
                          lo, hi);
      }
    }
  }

  lemma RebuiltConsistent(before: ZSet, after: ZSet, minutes: ZSet, width: int, multiplier: nat, lo: int, hi: int)
    requires width > 0 && Consistent(before) && RebuiltBars(before, after, minutes, width, multiplier, lo, hi)
    ensures Consistent(after)
  {
    forall m | m in after ensures after[m] == m.kline.timestamp {
      var a := after[m];
      assert RebuiltAt(before, after, minutes, width, multiplier, lo, hi, a);
      assert m in At(after, a);
      assert m in At(before, a) || m.kline.timestamp == a;
    }
  }

  lemma SecondRepair(m0: ZSet, m1: ZSet, m2: ZSet, market: set<Kline>, lo: int, hi: int)
    requires RepairedMinutes(m0, m1, market, lo, hi) && NothingMissing(m1, market, lo, hi)
    requires RepairedMinutes(m1, m2, market, lo, hi)
    ensures m2 == m1
  {
    RepairedOnce(m0, m1, market, lo, hi);
    forall t ensures At(m2, t) == At(m1, t) {
      ScoreIffAt(m1, t);
      if lo <= t <= hi && t in Scores(m1) {
        var m :| m in At(m1, t) && At(m2, t) == {m};
        var n :| At(m1, t) == {n};
      }
    }
    SameAtIsSame(m1, m2);
  }

  lemma SameAtIsSame(z: ZSet, z': ZSet)
    requires forall t :: At(z', t) == At(z, t)
    ensures z' == z
  {
    forall m | m in z ensures m in z' && z'[m] == z[m] {
      assert m in At(z, z[m]);
      assert m in At(z', z[m]);
    }
    forall m | m in z' ensures m in z {
      assert m in At(z', z'[m]);
      assert m in At(z, z'[m]);
    }
  }

  method ProcessSymbol(r: Redis, exchange: string, symbol: string, startMs: int, endMs: int, servers: Servers,
      ghost market: set<Kline>)
    returns (filled: nat)
    requires startMs <= endMs && MinuteAligned(startMs) && MinuteAligned(endMs)
    requires InOrder(DataOf(r, exchange, symbol))
    requires Truthful(servers, exchange, market) && IsMarket(market)
    modifies r
    ensures forall k | !IsSymbolKey(k, exchange, symbol) :: r.Get(k) == old(r.Get(k))
    ensures SymbolRepaired(old(DataOf(r, exchange, symbol)), DataOf(r, exchange, symbol), market,
                           Reliable(servers, exchange), filled, startMs, endMs)
  {
    TargetsDistinct();
    ghost var before := DataOf(r, exchange, symbol);
    filled := RepairMinutes(r, exchange, symbol, startMs, endMs, servers, market);
    assert DataOf(r, exchange, symbol).bars == before.bars;
    ghost var minutes := r.Get(MinuteKey(exchange, symbol));
    RepairKeepsScores(before.minutes, minutes, market, startMs, endMs);
    if filled > 0 {
      DedupTargets(r, exchange, symbol, startMs, endMs);
      RepairedOnce(before.minutes, minutes, market, startMs, endMs);
      assert r.Get(MinuteKey(exchange, symbol)) == minutes;
      WriteTargets(r, exchange, symbol, startMs, endMs, before.bars);
      assert r.Get(MinuteKey(exchange, symbol)) == minutes;
    }
  }

  lemma RepairedOnce(before: ZSet, after: ZSet, market: set<Kline>, lo: int, hi: int)
    requires RepairedMinutes(before, after, market, lo, hi)
    ensures forall t | lo <= t <= hi && t in Scores(after) :: Single(after, t)
  {
    forall t | lo <= t <= hi && t in Scores(after) ensures Single(after, t) {
      ScoreIffAt(after, t);
    }
  }

  /** One symbol of a batch: the data of the other symbols stays. */
  method ProcessOne(r: Redis, exchange: string, symbol: string, startMs: int, endMs: int, servers: Servers,
      ghost market: set<Kline>)
    returns (filled: nat)
    requires startMs <= endMs && MinuteAligned(startMs) && MinuteAligned(endMs)
    requires InOrder(DataOf(r, exchange, symbol))
    requires Truthful(servers, exchange, market) && IsMarket(market)
    modifies r
    ensures forall k | !IsSymbolKey(k, exchange, symbol) :: r.Get(k) == old(r.Get(k))
    ensures SymbolRepaired(old(DataOf(r, exchange, symbol)), DataOf(r, exchange, symbol), market,
                           Reliable(servers, exchange), filled, startMs, endMs)
    ensures forall s | s != symbol :: DataOf(r, exchange, s) == old(DataOf(r, exchange, s))
  {
    filled := ProcessSymbol(r, exchange, symbol, startMs, endMs, servers, market);
    forall s | s != symbol ensures DataOf(r, exchange, s) == old(DataOf(r, exchange, s)) {
      assert forall i | 0 <= i < |TARGETS| :: !IsSymbolKey(Key(exchange, s, TARGETS[i]), exchange, symbol);
    }
  }

  ghost predicate IsBatchKey(k: Key, exchange: string, symbols: seq<string>) {
    k.exchange == exchange && k.symbol in symbols && (k.interval == "1m" || k.interval in TARGETS)
  }

  /** The batch of one exchange: every symbol is repaired, no symbol touches another, and no other key changes. */
  method ProcessExchangeBatch(r: Redis, exchange: string, symbols: seq<string>, startMs: int, endMs: int,
                              servers: string -> Servers, ghost market: string -> set<Kline>)
    returns (totalFilled: nat, fills: seq<nat>)
    requires startMs <= endMs && MinuteAligned(startMs) && MinuteAligned(endMs)
    requires forall i, j | 0 <= i < j < |symbols| :: symbols[i] != symbols[j]
    requires forall i | 0 <= i < |symbols| :: InOrder(DataOf(r, exchange, symbols[i]))
    requires forall i | 0 <= i < |symbols| ::
      Truthful(servers(symbols[i]), exchange, market(symbols[i])) && IsMarket(market(symbols[i]))
    modifies r
    ensures |fills| == |symbols| && totalFilled == Sum(fills)
    ensures forall k | !IsBatchKey(k, exchange, symbols) :: r.Get(k) == old(r.Get(k))
    ensures forall i | 0 <= i < |symbols| ::
      SymbolRepaired(old(DataOf(r, exchange, symbols[i])), DataOf(r, exchange, symbols[i]), market(symbols[i]),
                     Reliable(servers(symbols[i]), exchange), fills[i], startMs, endMs)
  {
    totalFilled, fills := 0, [];
    for i := 0 to |symbols|
      invariant |fills| == i && totalFilled == Sum(fills)
      invariant forall k | !IsBatchKey(k, exchange, symbols) :: r.Get(k) == old(r.Get(k))
      invariant forall j | i <= j < |symbols| ::
        DataOf(r, exchange, symbols[j]) == old(DataOf(r, exchange, symbols[j]))
      invariant forall j | 0 <= j < i ::
        SymbolRepaired(old(DataOf(r, exchange, symbols[j])), DataOf(r, exchange, symbols[j]), market(symbols[j]),
                       Reliable(servers(symbols[j]), exchange), fills[j], startMs, endMs)
    {
      var symbol := symbols[i];
      var filled := ProcessOne(r, exchange, symbol, startMs, endMs, servers(symbol), market(symbol));
      SumMore(fills, filled);
      fills := fills + [filled];
      totalFilled := totalFilled + filled;
    }
  }

  lemma SumMore(ns: seq<nat>, n: nat)
    ensures Sum(ns + [n]) == Sum(ns) + n
  {
    assert (ns + [n])[..|ns|] == ns;
  }

  ghost function Sum(ns: seq<nat>): nat {
    if ns == [] then 0 else Sum(ns[..|ns| - 1]) + ns[|ns| - 1]
  }
}
