/**
  Paging through an exchange's history. OKX pages run backwards from a cursor, Binance pages forwards.

  A server is a function of the request number and the cursor, so that every reply may differ: other page
  sizes, or a failure. `market` is the exchange's true candle history.
*/
module Fetchers {
  import opened Klines
  import opened Intervals

  datatype Reply = Failed | Page(candles: seq<Kline>)

  type OkxServer = (nat, int) -> Reply
  type BinanceServer = (nat, int, int) -> Reply

  // ---------------------------------------------------------------------------------------------
  // Honest servers, with any page size from 1 upwards
  // ---------------------------------------------------------------------------------------------

  /** The newest candles older than `after`, newest first; empty only if there are none. */
  ghost predicate NewestBefore(page: seq<Kline>, market: set<Kline>, after: int) {
    && Descending(page)
    && (forall c | c in page :: c in market && c.timestamp < after)
    && (forall c | c in market && c.timestamp < after && c !in page ::
          page != [] && c.timestamp < page[|page| - 1].timestamp)
  }

  /** The oldest candles in [from, to], oldest first; empty only if there are none. */
  ghost predicate OldestFrom(page: seq<Kline>, market: set<Kline>, from: int, to: int) {
    && Ascending(page)
    && (forall c | c in page :: c in market && from <= c.timestamp <= to)
    && (forall c | c in market && from <= c.timestamp <= to && c !in page ::
          page != [] && page[|page| - 1].timestamp < c.timestamp)
  }

  /** Whatever the server answers is true; it may fail. */
  ghost predicate OkxTruthful(serve: OkxServer, market: set<Kline>) {
    forall n: nat, after :: serve(n, after).Page? ==> NewestBefore(serve(n, after).candles, market, after)
  }

  ghost predicate OkxReliable(serve: OkxServer) {
    forall n: nat, after :: serve(n, after).Page?
  }

  ghost predicate BinanceTruthful(serve: BinanceServer, market: set<Kline>) {
    forall n: nat, from, to :: serve(n, from, to).Page? ==> OldestFrom(serve(n, from, to).candles, market, from, to)
  }

  ghost predicate BinanceReliable(serve: BinanceServer) {
    forall n: nat, from, to :: serve(n, from, to).Page?
  }

  /** Two candles of the market are at least one interval apart. */
  ghost predicate Spaced(market: set<Kline>, step: int) {
    forall a, b | a in market && b in market && a.timestamp < b.timestamp :: a.timestamp + step <= b.timestamp
  }

  // ---------------------------------------------------------------------------------------------
  // One page
  // ---------------------------------------------------------------------------------------------

  /** The candles of a page that lie in the requested range. */
  function InWindow(page: seq<Kline>, lo: int, hi: int): (r: seq<Kline>)
    ensures forall c :: c in r <==> c in page && lo <= c.timestamp <= hi
  {
    if page == [] then []
    else
      var c := page[|page| - 1];
      InWindow(page[..|page| - 1], lo, hi) + (if lo <= c.timestamp <= hi then [c] else [])
  }

  lemma {:induction false} InWindowOrdered(page: seq<Kline>, lo: int, hi: int)
    requires Descending(page) || Ascending(page)
    ensures Descending(page) ==> Descending(InWindow(page, lo, hi))
    ensures Ascending(page) ==> Ascending(InWindow(page, lo, hi))
  {
    if page != [] {
      var front, c := page[..|page| - 1], page[|page| - 1];
      InWindowOrdered(front, lo, hi);
      var kept := InWindow(front, lo, hi);
      forall i | 0 <= i < |kept|
        ensures Descending(page) ==> kept[i].timestamp > c.timestamp
        ensures Ascending(page) ==> kept[i].timestamp < c.timestamp
      {
        assert kept[i] in front;
      }
    }
  }

  function MinTimestamp(page: seq<Kline>, start: int): (r: int)
    ensures r <= start
  {
    if page == [] then start
    else
      var m, c := MinTimestamp(page[..|page| - 1], start), page[|page| - 1];
      if c.timestamp < m then c.timestamp else m
  }

  function MaxTimestamp(page: seq<Kline>, start: int): (r: int)
    ensures r >= start
  {
    if page == [] then start
    else
      var m, c := MaxTimestamp(page[..|page| - 1], start), page[|page| - 1];
      if c.timestamp > m then c.timestamp else m
  }

  method ReadOkxBatch(page: seq<Kline>, startTs: int, endTs: int, currentEnd: int)
      returns (kept: seq<Kline>, batchMin: int)
    ensures kept == InWindow(page, startTs, endTs) && batchMin == MinTimestamp(page, currentEnd)
  {
    kept, batchMin := [], currentEnd;
    for i := 0 to |page|
      invariant kept == InWindow(page[..i], startTs, endTs) && batchMin == MinTimestamp(page[..i], currentEnd)
    {
      assert page[..i + 1][..i] == page[..i];
      if startTs <= page[i].timestamp <= endTs { kept := kept + [page[i]]; }
      if page[i].timestamp < batchMin { batchMin := page[i].timestamp; }
    }
    assert page[..|page|] == page;
  }

  method ReadBinanceBatch(page: seq<Kline>, startTs: int, endTs: int, currentStart: int)
      returns (kept: seq<Kline>, batchMax: int)
    ensures kept == InWindow(page, startTs, endTs) && batchMax == MaxTimestamp(page, currentStart)
  {
    kept, batchMax := [], currentStart;
    for i := 0 to |page|
      invariant kept == InWindow(page[..i], startTs, endTs) && batchMax == MaxTimestamp(page[..i], currentStart)
    {
      assert page[..i + 1][..i] == page[..i];
      if startTs <= page[i].timestamp <= endTs { kept := kept + [page[i]]; }
      if page[i].timestamp > batchMax { batchMax := page[i].timestamp; }
    }
    assert page[..|page|] == page;
  }

  // ---------------------------------------------------------------------------------------------
  // Progress of a backward and of a forward pass
  // ---------------------------------------------------------------------------------------------

  /** Everything in the range that is not older than `minTs` has been collected, newest first. */
  ghost predicate CollectedDownTo(klines: seq<Kline>, market: set<Kline>, startTs: int, endTs: int, minTs: int) {
    && Descending(klines)
    && (forall c :: c in klines <==> c in Within(market, startTs, endTs) && c.timestamp >= minTs)
  }

  /** Everything in the range that is older than `cursor` has been collected, oldest first. */
  ghost predicate CollectedUpTo(klines: seq<Kline>, market: set<Kline>, startTs: int, endTs: int, cursor: int) {
    && Ascending(klines)
    && (forall c :: c in klines <==> c in Within(market, startTs, endTs) && c.timestamp < cursor)
  }

  ghost predicate NothingBefore(market: set<Kline>, t: int) {
    forall c | c in market :: c.timestamp >= t
  }

  lemma BackwardPage(klines: seq<Kline>, market: set<Kline>, startTs: int, endTs: int, minTs: int, page: seq<Kline>)
    requires CollectedDownTo(klines, market, startTs, endTs, minTs)
    requires NewestBefore(page, market, minTs) && page != []
    ensures CollectedDownTo(klines + InWindow(page, startTs, endTs), market, startTs, endTs, page[|page| - 1].timestamp)
  {
    var kept := InWindow(page, startTs, endTs);
    InWindowOrdered(page, startTs, endTs);
    forall i, j | 0 <= i < |klines| && 0 <= j < |kept| ensures klines[i].timestamp > kept[j].timestamp {
      assert klines[i] in klines && kept[j] in page;
    }
    forall c ensures c in klines + kept
                <==> c in Within(market, startTs, endTs) && c.timestamp >= page[|page| - 1].timestamp
    {
      NotBeforeLast(page, c);
    }
  }

  lemma NotBeforeLast(page: seq<Kline>, c: Kline)
    requires page != []
    ensures c in page && Descending(page) ==> c.timestamp >= page[|page| - 1].timestamp
    ensures c in page && Ascending(page) ==> c.timestamp <= page[|page| - 1].timestamp
  {
    if c in page {
      var i :| 0 <= i < |page| && page[i] == c;
    }
  }

  lemma ForwardPage(klines: seq<Kline>, market: set<Kline>, startTs: int, endTs: int, cursor: int, page: seq<Kline>,
      step: int)
    requires CollectedUpTo(klines, market, startTs, endTs, cursor) && startTs <= cursor
    requires OldestFrom(page, market, cursor, endTs) && page != [] && Spaced(market, step) && step > 0
    ensures CollectedUpTo(klines + InWindow(page, startTs, endTs), market, startTs, endTs,
      page[|page| - 1].timestamp + step)
  {
    var kept := InWindow(page, startTs, endTs);
    InWindowOrdered(page, startTs, endTs);
    forall i, j | 0 <= i < |klines| && 0 <= j < |kept| ensures klines[i].timestamp < kept[j].timestamp {
      assert klines[i] in klines && kept[j] in page;
    }
    var last := page[|page| - 1];
    assert last in page;
    forall c ensures c in klines + kept
                <==> c in Within(market, startTs, endTs) && c.timestamp < last.timestamp + step
    {
      NotBeforeLast(page, c);
    }
  }

  lemma {:induction false} LastIsMin(page: seq<Kline>, start: int)
    requires Descending(page) && page != [] && page[0].timestamp < start
    ensures MinTimestamp(page, start) == page[|page| - 1].timestamp
  {
    if |page| > 1 { LastIsMin(page[..|page| - 1], start); }
  }

  lemma {:induction false} LastIsMax(page: seq<Kline>, start: int)
    requires Ascending(page) && page != [] && page[0].timestamp >= start
    ensures MaxTimestamp(page, start) == page[|page| - 1].timestamp
  {
    if |page| > 1 { LastIsMax(page[..|page| - 1], start); }
  }

  // ---------------------------------------------------------------------------------------------
  // A pass that is cut short by a failed request
  // ---------------------------------------------------------------------------------------------

  /** `next` is where the following request starts: `step` behind the end of a page that is not empty. */
  ghost predicate LeadsTo(reply: Reply, step: int, next: int) {
    reply.Page? && reply.candles != [] && next == reply.candles[|reply.candles| - 1].timestamp + step
  }

  ghost predicate OkxStep(serve: OkxServer, n: nat, after: int, next: int) {
    LeadsTo(serve(n, after), 0, next)
  }

  ghost predicate BinanceStep(serve: BinanceServer, n: nat, from: int, to: int, step: int, next: int) {
    LeadsTo(serve(n, from, to), step, next)
  }

  /** The cursors of a pass from `start`: every page is continued where it ends. */
  ghost predicate OkxPass(serve: OkxServer, cursors: seq<int>, start: int) {
    && cursors != [] && cursors[0] == start
    && forall i {:trigger OkxStep(serve, i, cursors[i], cursors[i + 1])} | 0 <= i < |cursors| - 1 ::
         OkxStep(serve, i, cursors[i], cursors[i + 1])
  }

  ghost predicate BinancePass(serve: BinanceServer, cursors: seq<int>, start: int, to: int, step: int) {
    && cursors != [] && cursors[0] == start
    && forall i {:trigger BinanceStep(serve, i, cursors[i], to, step, cursors[i + 1])} | 0 <= i < |cursors| - 1 ::
         BinanceStep(serve, i, cursors[i], to, step, cursors[i + 1])
  }

  /** A pass whose last request fails. */
  ghost predicate OkxCutShort(serve: OkxServer, cursors: seq<int>, start: int) {
    OkxPass(serve, cursors, start) && serve(|cursors| - 1, cursors[|cursors| - 1]).Failed?
  }

  ghost predicate BinanceCutShort(serve: BinanceServer, cursors: seq<int>, start: int, to: int, step: int) {
    BinancePass(serve, cursors, start, to, step) && serve(|cursors| - 1, cursors[|cursors| - 1], to).Failed?
  }

  lemma OkxPassOn(serve: OkxServer, cursors: seq<int>, start: int, page: seq<Kline>)
    requires OkxPass(serve, cursors, start) && page != []
    requires serve(|cursors| - 1, cursors[|cursors| - 1]) == Page(page)
    ensures OkxPass(serve, cursors + [page[|page| - 1].timestamp], start)
  {
    var more := cursors + [page[|page| - 1].timestamp];
    forall i | 0 <= i < |more| - 1 ensures OkxStep(serve, i, more[i], more[i + 1]) {
      assert i < |cursors| - 1 ==> OkxStep(serve, i, cursors[i], cursors[i + 1]);
    }
  }

  lemma BinancePassOn(serve: BinanceServer, cursors: seq<int>, start: int, to: int, step: int, page: seq<Kline>)
    requires BinancePass(serve, cursors, start, to, step) && page != []
    requires serve(|cursors| - 1, cursors[|cursors| - 1], to) == Page(page)
    ensures BinancePass(serve, cursors + [page[|page| - 1].timestamp + step], start, to, step)
  {
    var more := cursors + [page[|page| - 1].timestamp + step];
    forall i | 0 <= i < |more| - 1 ensures BinanceStep(serve, i, more[i], to, step, more[i + 1]) {
      assert i < |cursors| - 1 ==> BinanceStep(serve, i, cursors[i], to, step, cursors[i + 1]);
    }
  }

  /** The `n` requests so far form a pass, and the next one starts at `cursor`. */
  ghost predicate OkxAt(serve: OkxServer, cursors: seq<int>, start: int, n: int, cursor: int) {
    OkxPass(serve, cursors, start) && |cursors| == n + 1 && cursors[n] == cursor
  }

  ghost predicate BinanceAt(serve: BinanceServer, cursors: seq<int>, start: int, to: int, step: int, n: int,
      cursor: int)
  {
    BinancePass(serve, cursors, start, to, step) && |cursors| == n + 1 && cursors[n] == cursor
  }

  /** The whole range; or, when a request failed, all of the range that the requests before it had reached. */
  ghost predicate OkxKeepsRead(candles: set<Kline>, serve: OkxServer, market: set<Kline>, lo: int, hi: int,
      start: int)
  {
    || candles == Within(market, lo, hi)
    || exists cursors ::
         && OkxCutShort(serve, cursors, start) && lo < cursors[|cursors| - 1]
         && candles == Within(market, cursors[|cursors| - 1], hi)
  }

  ghost predicate BinanceKeepsRead(candles: set<Kline>, serve: BinanceServer, market: set<Kline>, lo: int, hi: int,
      step: int)
  {
    || candles == Within(market, lo, hi)
    || exists cursors ::
         && BinanceCutShort(serve, cursors, lo, hi, step) && cursors[|cursors| - 1] <= hi
         && candles == Within(market, lo, cursors[|cursors| - 1] - 1)
  }

  // ---------------------------------------------------------------------------------------------
  // historical_data_fetcher.cpp
  // ---------------------------------------------------------------------------------------------

  const MAX_RETRIES := 2

  /**
    OKXHistoricalFetcher::fetch_history. There is no condition on the server: the loop ends whatever it
    answers, because a page only counts when it reaches below everything seen before, and at most
    MAX_RETRIES empty pages are taken in a row.
  */
  method OkxFetchHistory(serve: OkxServer, interval: string, startTs: int, endTs: int, ghost market: set<Kline>)
    returns (result: seq<Kline>)
    ensures OkxTruthful(serve, market) ==>
      Ascending(result) && Elements(result) <= Within(market, startTs, endTs)
    ensures OkxTruthful(serve, market) && OkxReliable(serve) ==>
      Ascending(result) && Elements(result) == Within(market, startTs, endTs)
    ensures OkxTruthful(serve, market) ==>
      OkxKeepsRead(Elements(result), serve, market, startTs, endTs, endTs + IntervalMs(interval))
  {
    var step := IntervalMs(interval);
    var klines: seq<Kline> := [];
    var retryCount, n := 0, 0;
    var currentEnd, minTs := endTs + step, endTs + step;
    ghost var truthful := OkxTruthful(serve, market);
    ghost var cursors := [currentEnd];
    while currentEnd > startTs && retryCount < MAX_RETRIES
      invariant n >= 0 && currentEnd <= minTs && 0 <= retryCount
      invariant truthful ==> CollectedDownTo(klines, market, startTs, endTs, minTs)
      invariant retryCount == 0 ==> currentEnd == minTs
      invariant truthful && retryCount == 0 ==> OkxAt(serve, cursors, endTs + step, n, currentEnd)
      invariant truthful && retryCount > 0 ==> NothingBefore(market, minTs)
      invariant retryCount < MAX_RETRIES
      decreases minTs - startTs, MAX_RETRIES - retryCount
    {
      var reply := serve(n, currentEnd);
      n := n + 1;
      if reply.Failed? {
        assert truthful && retryCount == 0 ==> OkxCutShort(serve, cursors, endTs + step);
        break;
      }
      var data := reply.candles;
      if data == [] {
        assert truthful ==> NothingBefore(market, minTs);
        retryCount := retryCount + 1;
        if retryCount >= MAX_RETRIES { break; }
        if currentEnd - startTs > step * 200 {
          currentEnd := startTs + step * 100;
        } else {
          currentEnd := currentEnd - step * 10;
        }
        continue;
      }
      if truthful {
        assert data[0] in data;
        BackwardPage(klines, market, startTs, endTs, minTs, data);
        LastIsMin(data, currentEnd);
        OkxPassOn(serve, cursors, endTs + step, data);
        cursors := cursors + [data[|data| - 1].timestamp];
      }
      retryCount := 0;
      var kept, batchMin := ReadOkxBatch(data, startTs, endTs, currentEnd);
      klines := klines + kept;
      if batchMin < minTs {
        minTs := batchMin;
        currentEnd := batchMin;
      } else {
        break;
      }
      if currentEnd <= startTs { break; }
    }
    result := SortByTimestamp(klines);
    if truthful {
      SortOfDistinct(klines);
    }
  }

  /**
    BinanceHistoricalFetcher::fetch_history, again against any server: every round moves the cursor forward.
  */
  method BinanceFetchHistory(serve: BinanceServer, interval: string, startTs: int, endTs: int, ghost market: set<Kline>)
    returns (result: seq<Kline>)
    ensures BinanceTruthful(serve, market) && Spaced(market, IntervalMs(interval)) ==>
      Ascending(result) && Elements(result) <= Within(market, startTs, endTs)
    ensures BinanceTruthful(serve, market) && BinanceReliable(serve)
            && Spaced(market, IntervalMs(interval)) ==>
      Ascending(result) && Elements(result) == Within(market, startTs, endTs)
    ensures BinanceTruthful(serve, market) && Spaced(market, IntervalMs(interval)) ==>
      BinanceKeepsRead(Elements(result), serve, market, startTs, endTs, IntervalMs(interval))
  {
    var step := IntervalMs(interval);
    result := [];
    var retryCount, n := 0, 0;
    var currentStart := startTs;
    ghost var truthful := BinanceTruthful(serve, market) && Spaced(market, step);
    ghost var cursor := startTs;   // everything in the range before this has been seen
    ghost var cursors := [startTs];
    while currentStart <= endTs
      invariant n >= 0 && retryCount >= 0 && startTs <= cursor <= currentStart
      invariant truthful ==> CollectedUpTo(result, market, startTs, endTs, cursor)
      invariant truthful && retryCount == 0 ==> currentStart == cursor
      invariant truthful && retryCount == 0 ==> BinanceAt(serve, cursors, startTs, endTs, step, n, currentStart)
      invariant truthful && retryCount > 0 ==> forall c | c in Within(market, startTs, endTs) :: c.timestamp < cursor
      decreases endTs - currentStart
    {
      var reply := serve(n, currentStart, endTs);
      n := n + 1;
      if reply.Failed? {
        assert truthful && retryCount == 0 ==> BinanceCutShort(serve, cursors, startTs, endTs, step);
        break;
      }
      var response := reply.candles;
      if response == [] {
        retryCount := retryCount + 1;
        if retryCount >= MAX_RETRIES { break; }
        currentStart := currentStart + step * 10;
        continue;
      }
      if truthful {
        assert response[0] in response;
        assert response[0] in Within(market, startTs, endTs) && retryCount == 0;
        ForwardPage(result, market, startTs, endTs, cursor, response, step);
        LastIsMax(response, currentStart);
        BinancePassOn(serve, cursors, startTs, endTs, step, response);
        cursors := cursors + [response[|response| - 1].timestamp + step];
        FirstInWindow(response, startTs, endTs);
      }
      retryCount := 0;
      var kept, maxTimestamp := ReadBinanceBatch(response, startTs, endTs, currentStart);
      result := result + kept;
      currentStart := maxTimestamp + step;
      cursor := currentStart;
      if kept == [] {
        retryCount := retryCount + 1;
        assert retryCount < MAX_RETRIES;   // the break below is never taken
        if retryCount >= MAX_RETRIES { break; }
        currentStart := currentStart + step * 100;
        continue;
      }
      retryCount := 0;
      if currentStart > endTs { break; }
    }
  }

  lemma FirstInWindow(page: seq<Kline>, lo: int, hi: int)
    requires page != [] && lo <= page[0].timestamp <= hi
    ensures InWindow(page, lo, hi) != []
  {
    assert page[0] in InWindow(page, lo, hi);
  }

  // ---------------------------------------------------------------------------------------------
  // fast_kline_filler.py
  // ---------------------------------------------------------------------------------------------

  /** fetch_okx_1m */
  method OkxFetchMinutes(serve: OkxServer, startMs: int, endMs: int, ghost market: set<Kline>)
      returns (klines: seq<Kline>)
    requires OkxTruthful(serve, market)
    ensures Descending(klines) && Elements(klines) <= Within(market, startMs, endMs)
    ensures OkxReliable(serve) ==> Elements(klines) == Within(market, startMs, endMs)
    ensures OkxKeepsRead(Elements(klines), serve, market, startMs, endMs, endMs + 1)
  {
    klines := [];
    var n := 0;
    var curEnd := endMs;
    ghost var low := endMs + 1;   // everything in the range from here on has been seen
    ghost var cursors := [low];
    while curEnd >= startMs
      invariant n >= 0 && low == curEnd + 1 && CollectedDownTo(klines, market, startMs, endMs, low)
      invariant OkxAt(serve, cursors, endMs + 1, n, low)
      decreases curEnd - startMs
    {
      var reply := serve(n, curEnd + 1);
      n := n + 1;
      if reply.Failed? {
        assert OkxCutShort(serve, cursors, endMs + 1);
        break;
      }
      var candles := reply.candles;
      if candles == [] { break; }
      BackwardPage(klines, market, startMs, endMs, low, candles);
      OkxPassOn(serve, cursors, endMs + 1, candles);
      cursors := cursors + [candles[|candles| - 1].timestamp];
      assert candles[|candles| - 1] in candles;
      klines := klines + InWindow(candles, startMs, endMs);
      var earliest := candles[|candles| - 1].timestamp;
      low := earliest;
      if earliest <= startMs { break; }
      curEnd := earliest - 1;
    }
  }

  /** fetch_binance_1m */
  method BinanceFetchMinutes(serve: BinanceServer, startMs: int, endMs: int, ghost market: set<Kline>)
      returns (klines: seq<Kline>)
    requires BinanceTruthful(serve, market) && Spaced(market, MINUTE_MS)
    ensures Ascending(klines) && Elements(klines) <= Within(market, startMs, endMs)
    ensures BinanceReliable(serve) ==> Elements(klines) == Within(market, startMs, endMs)
    ensures BinanceKeepsRead(Elements(klines), serve, market, startMs, endMs, MINUTE_MS)
  {
    klines := [];
    var n := 0;
    var cur := startMs;
    ghost var high := startMs;   // everything in the range before this has been seen
    ghost var cursors := [startMs];
    while cur <= endMs
      invariant n >= 0 && startMs <= cur == high && CollectedUpTo(klines, market, startMs, endMs, high)
      invariant BinanceAt(serve, cursors, startMs, endMs, MINUTE_MS, n, cur)
      decreases endMs - cur
    {
      var reply := serve(n, cur, endMs);
      n := n + 1;
      if reply.Failed? {
        assert BinanceCutShort(serve, cursors, startMs, endMs, MINUTE_MS);
        break;
      }
      var data := reply.candles;
      if data == [] { break; }
      ForwardPage(klines, market, startMs, endMs, cur, data, MINUTE_MS);
      BinancePassOn(serve, cursors, startMs, endMs, MINUTE_MS, data);
      cursors := cursors + [data[|data| - 1].timestamp + MINUTE_MS];
      assert data[|data| - 1] in data;
      klines := klines + InWindow(data, startMs, endMs);
      var lastTs := data[|data| - 1].timestamp;
      high := lastTs + MINUTE_MS;
      if lastTs >= endMs { break; }
      cur := lastTs + MINUTE_MS;
    }
  }
}
