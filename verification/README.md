# Verified model of the trading framework's data, dispatch and risk core

The project models, in Dafny, the parts of the trading framework whose correctness depends on loops over unbounded
data, on state that survives many calls, or on arithmetic that can wrap, and proves what those parts are for:

- the repair of one-minute candles in Redis and the bars built from them (`Klines.dfy`, `Intervals.dfy`,
  `GapDetection.dfy`, `GapMeaning.dfy`, `SortedSet.dfy`, `Fetchers.dfy`, `Aggregation.dfy`, `Filler.dfy`);
- the re-entrant event dispatcher (`EventEngine.dfy`);
- order rate, position, exposure and drawdown rules (`Risk.dfy`);
- the two base64 encoders and the decoder, and the signed tokens with their cache (`Base64.dfy`, `Dots.dfy`,
  `Tokens.dfy`);
- the notifications of the configuration diff (`ConfigDiff.dfy`);
- the reference-counted kline subscriptions (`Subscriptions.dfy`).

`dafny verify dfyconfig.toml` checks the whole project.

## How it is built

Code that changes state step by step is a method or a class here, proved against a specification function or
predicate; what the source promises is then proved about that specification, mostly as lemmas over whole runs.

- **Candle repair.** A sorted set is a map from member to score; each member holds its candle, and two members may hold
  the same timestamp. The exchanges are functions from the request number and the cursor to a reply, so page sizes may
  change from reply to reply and replies may fail. *Truthful* means that a page holds real candles in the order of the
  protocol without leaving one out; *reliable* means that no request fails. The repair theorem needs truthful servers
  only for what it writes, and reliable ones only for completeness. Termination of both C++ fetchers needs neither.
- **Gaps.** The three gap finders are each proved equal to one function, `GapsUpTo`, and that function is proved to be
  the only exact cover of the missing grid points.
- **Dispatcher.** A listener is an arbitrary function of its identifier, the event and everything delivered so far,
  giving the calls it makes on the engine; a listener that throws is one whose calls end early. `put` and `drain` are
  steps of a transition system with a history of puts and of deliveries, and the class is proved to take exactly
  these steps.
- **Risk.** Doubles are reals and the clock counts nanoseconds. The truncating casts of the clock arithmetic and the
  conversion of a negative limit to an unsigned size are written out.
- **Base64.** Bytes, sextets and the accumulator are bit vectors, so the wrap of the 32-bit accumulator is the real one;
  the reference is section 4 of RFC 4648, stated over 24-bit groups.
- **Tokens.** The signature function and the JSON printer and parser are parameters; the parser is only asked to read
  back what the printer wrote. Time is a parameter of every call that reads the clock.
- **Configuration diff.** Objects are maps; the keys of two objects may be visited in any order, so the theorems do not
  depend on it. Applying notifications by their dotted path is defined independently of the diff.
- **Subscriptions.** The holder of a kline is the main program or a strategy, and a strategy holds it as often as it
  subscribed and has not yet unsubscribed.

## What the code does that its documentation or a caller might not expect

- `get_interval_milliseconds` does not know `8h`; it falls through to one minute. The list of gaps that the detector
  is proved to compute then has the minutes between two neighbouring 8-hour bars in it
  (`GapMeaning.NeighbouringBars`). The gap filler asks the detector for `1m` and `1h` only
  (kline_gap_filler.cpp:53, 777), so this concerns the function's interface.
- `check_continuity` of the v2 monitor agrees with the other gap finders exactly when no timestamp is repeated
  (`GapDetection.CheckContinuity`).
- `detect_1m_gaps` answers one reversed gap for a window that ends before it starts, and ends a last gap at the end of
  the window even where that is not a grid point (`GapDetection.ScanGaps`).
- The per-minute order limit holds for windows of 61 seconds, since whole seconds are compared with 60
  (`RiskRules.RateLimitsHold`).
- The eight checks of an order protect the position limits exactly for order values that are not negative
  (`RiskRules.SafeIffNotNegative`). For every negative value a new risk manager accepts an order that leads over the
  exposure limit (`RiskRules.NegativeValueBreaksLimits`).
- The order path never stores a position; the account monitor does, by its absolute value, and its websocket updates
  pass over a position of at most one cent, so a closed position stays stored. Whatever is stored, the position limit is
  protected exactly when the true position is not above the stored value for a purchase, and not below it for a sale
  (`RiskRules.StoredSafeIff`; an accepted order for every other case is in `RiskRules.StoredBreaksLimit`). For a freshly
  stored absolute value this means: exactly when the order is not a sale on a short position
  (`RiskRules.UnsignedSafeIff`). After the update that reports a long position closed, no sale is safe
  (`RiskRules.ClosedPositionStaysStored`): with a limit of 100 and 100 still stored, a sale of 180 passes.
- The exposure limit does not need the sign: it is protected over every run in which each position is stored, by its
  absolute value, as it changes (`RiskRules.ExposureHoldsUnsigned`).
- The date key of the drawdown tracker uses `tm_year` without adding 1900; it still tells days apart, which is all that
  is used.
- The token lifetime in milliseconds is computed in `int` and is the configured one exactly below 597 hours
  (`Tokens.LifetimeIsExact`).
- Invalidating a user's tokens only empties the cache: an uncached token is parsed again and stays valid
  (`Tokens.InvalidationChangesNoAnswer`).
- A null member and a missing member are the same to the configuration diff (`ConfigDiff.NullMemberIsSilent`).
- A dotted path can be taken apart again exactly when no key holds a dot and the first is not empty
  (`ConfigDiff.KeysOfDotted`). As long as no top-level member with an empty name is reported, the notifications are a
  patch exactly when no reported path holds a dot in one of its keys (`ConfigDiff.PatchIffNoDotReported`); a dotted
  member that does not change does no harm. Two members can be notified under one path
  (`ConfigDiff.DottedKeysCollide`), and with an empty name at the top the outcome depends on the order of the
  notifications (`ConfigDiff.EmptyNameDependsOnOrder`).
- A listener's key is compared as a string prefix, so `risk` also hears `riskier` (`ConfigDiff.HearsMeans`).
- An unsubscribe by a strategy that does not hold the kline can end a startup subscription; the exact condition is
  proved (`Subscriptions.StartupSurvivesIff`).
- In the Binance fetcher the second retry break behind an empty filtered page cannot be reached, since the counter is
  reset before it; the loop is modelled as written, with an assertion in front of that break.

## Model

| member | source | states |
|---|---|---|
| GapDetection.GapsAreExactCover | cpp/server/klinedata/gap_detector.cpp:82-194 | the gap list is non-empty intervals on the grid, increasing, with a present candle between two of them, and holds exactly the missing grid points |
| GapDetection.ExactCoverUnique | cpp/scripts/fast_kline_filler.py:128-149 | there is no other such list, so any two correct gap finders agree |
| GapDetection.TickMeaning | cpp/scripts/fast_kline_filler.py:137-146 | the grid points counted from the end of a window are those a whole number of steps from its start |
| GapDetection.LeadingPart | cpp/server/klinedata/gap_detector.cpp:99-133 | the gap in front of the first candle, from the aligned start of the 60- or 180-day window, or none |
| GapDetection.InteriorGaps | cpp/server/klinedata/gap_detector.cpp:135-166 | for aligned sorted timestamps with repeats, the pairs of neighbours give the exact cover between first and last candle |
| GapDetection.TrailingPart | cpp/server/klinedata/gap_detector.cpp:169-192 | the gap behind the last candle up to the last closed one, or none |
| GapDetection.DetectGaps | cpp/server/klinedata/gap_detector.cpp:62-194 | for timestamps in any order with repeats and unparsed zeros, leading, interior and trailing gaps together are the exact cover of the whole window |
| GapMeaning.GapsMean | cpp/server/klinedata/gap_detector.cpp:93-192 | time by time, without the window: an aligned time lies in a gap exactly when it is not stored, is not before the first candle or its candle ends within the last 60 (1m to 30m) or 180 (1h) days, and is not behind the last candle or its candle is closed |
| GapMeaning.AlignTimestampMeaning | cpp/server/klinedata/kline_utils.cpp:34-36 | aligning rounds down to the grid from zero on, and up to it below zero |
| Intervals.IntervalTable | cpp/server/klinedata/kline_utils.cpp:20-32 | for every name in use but 8h the length is the number times the unit that the name spells out; 8h and all other names give one minute |
| GapDetection.ScanGaps | cpp/scripts/fast_kline_filler.py:128-149 | the membership scan gives the same exact cover; for a window that does not end on the grid, that of its last grid point with a last gap stretched to the end; and one reversed gap for a reversed window |
| GapDetection.MissingPoints | cpp/scripts/preload_klines_to_redis.py:1118-1126 | the sorted set difference lists exactly the missing grid points counted from the start, increasing, for every window |
| GapDetection.MergeMissing | cpp/scripts/preload_klines_to_redis.py:1118-1148 | merging missing points at most one and a half steps apart gives the exact cover up to the last grid point, for every window, whether or not its ends lie on one grid |
| GapDetection.CheckContinuity | cpp/scripts/auto_kline_monitor_v2.py:429-447 | it gives the exact cover if and only if no timestamp is repeated |
| GapMeaning.NeighbouringBars | cpp/server/klinedata/kline_utils.cpp:20-32 | the exact cover between two neighbouring bars of a stored interval is empty, for all intervals but 8h |
| SortedSets.UpsertAllEffect | cpp/scripts/fast_kline_filler.py:291-309 | for any write list, repeated timestamps included, a written score ends with one member, the last candle written, and other scores keep their members |
| SortedSets.UpsertAllAppend | cpp/scripts/fast_kline_filler.py:311-340 | upserting two lists one after the other is upserting their concatenation |
| SortedSets.Redis.LuaUpsert | cpp/scripts/fast_kline_filler.py:291-309 | the script performs the upsert of the whole list and touches no other key |
| SortedSets.Redis.WriteKlines | cpp/scripts/fast_kline_filler.py:311-340 | chunks of 500 have the effect of one call |
| SortedSets.Redis.Dedup | cpp/scripts/fast_kline_filler.py:153-179 | every score of the window keeps exactly its first listed member, nothing else changes, and the count is members minus distinct scores |
| SortedSets.Redis.DedupAll | cpp/scripts/preload_klines_to_redis.py:561-614 | rewriting the key keeps exactly the last listed member of every score, with the same count |
| SortedSets.EveryMemberInOneGroup | cpp/scripts/fast_kline_filler.py:164-167 | the groups by score partition the listed members |
| SortedSets.DedupKeepsScores | cpp/scripts/fast_kline_filler.py:153-179 | removing duplicates loses no timestamp |
| SortedSets.DedupIdempotent | cpp/scripts/fast_kline_filler.py:153-179 | a second run changes nothing |
| Aggregation.HighIsMaximum | cpp/scripts/auto_kline_monitor_v2.py:511-544 | the high of a bar is the maximum of the highs |
| Aggregation.LowIsMinimum | cpp/scripts/auto_kline_monitor_v2.py:511-544 | the low of a bar is the minimum of the lows |
| Aggregation.BarIsSane | cpp/scripts/auto_kline_monitor_v2.py:511-544 | low <= open, close <= high is kept by aggregation |
| Aggregation.TwoStages | cpp/scripts/auto_kline_monitor_v2.py:511-544 | aggregating bars of any size into a coarser bar is aggregating all their minutes directly |
| Aggregation.SliceMeaning | cpp/scripts/auto_kline_monitor_v2.py:511-544 | there is a bar exactly when there are enough candles; it opens with the first, closes with the last of the first `multiplier`, and its range is exactly theirs |
| Aggregation.VolumeAddsUp | cpp/scripts/auto_kline_monitor_v2.py:511-544 | the volume of no candle is nothing, and each candle adds its own |
| Aggregation.AggregateFold | cpp/scripts/preload_klines_to_redis.py:1380-1408 | the incremental fold holds, for every non-empty group and no other, the bar of that group's candles; what that bar is, value by value, is `FoldMeaning` |
| Aggregation.FoldMeaning | cpp/scripts/preload_klines_to_redis.py:1380-1408 | the fold's bar of an aligned time opens with the first candle of the list that falls into it, closes with the last one, and its range is exactly that of those candles; it is there exactly when one falls into it |
| Aggregation.FoldAgreesWithSlice | cpp/scripts/preload_klines_to_redis.py:1380-1408 | on a full group the fold's bar is the slice form's |
| Aggregation.FullGroup | cpp/scripts/fast_kline_filler.py:376-380 | pigeonhole: distinct minutes inside a range of n minutes are at most n, and n of them are all of them in order |
| Aggregation.FullIffComplete | cpp/scripts/fast_kline_filler.py:365-380 | a group reaches the multiplier exactly when every minute of its bar is there |
| Aggregation.OutBarsAreNewBars | cpp/scripts/fast_kline_filler.py:371-389 | the bars written are exactly the complete, not yet stored ones, each the OHLCV of its consecutive minutes |
| Aggregation.WrittenBarMeaning | cpp/scripts/fast_kline_filler.py:371-389 | a bar written has all its minutes in the list, opens with the one at its start, closes with the one at its last minute, and its range is exactly theirs |
| Fetchers.OkxFetchHistory | cpp/server/klinedata/historical_data_fetcher.cpp:20-178 | terminates against any server; against a truthful one the result is ascending and real; if it never fails it is exactly the exchange's candles in the range, despite empty-page jumps; if a request fails it is still everything that the requests before it had reached |
| Fetchers.BinanceFetchHistory | cpp/server/klinedata/historical_data_fetcher.cpp:195-332 | the same for forward paging, for candles at least one interval apart |
| Fetchers.OkxFetchMinutes | cpp/scripts/fast_kline_filler.py:257-283 | exactly the exchange's minutes of the range, newest first; when a request fails, exactly those from its cursor on |
| Fetchers.BinanceFetchMinutes | cpp/scripts/fast_kline_filler.py:232-255 | exactly the exchange's minutes of the range, oldest first; when a request fails, exactly those before its cursor |
| Filler.TargetTable | cpp/scripts/fast_kline_filler.py:58-70 | the targets are the intervals in use between a minute and a day, and both of their tables say what their names say |
| Filler.AggregateAndWrite | cpp/scripts/fast_kline_filler.py:344-391 | writes exactly the new complete bars of the stored minutes, by upsert, and touches no other key |
| Filler.FillGaps | cpp/scripts/fast_kline_filler.py:416-431 | afterwards each score holds what it held, or, inside a gap, the market's candle; every gap whose requests do not fail is filled, whatever the others do; the count is the number of new timestamps |
| Filler.RepairMinutes | cpp/scripts/fast_kline_filler.py:411-431 | the minutes of a symbol are repaired: old timestamps keep one of their members, new ones hold the market's candle, nothing outside the window changes, with reliable servers none is missing, and the count is the number of timestamps stored now and not before |
| Filler.RepairedTimestamps | cpp/scripts/fast_kline_filler.py:411-431 | a repaired window holds exactly the old timestamps and the market's, each once |
| Filler.BarsRebuilt | cpp/scripts/fast_kline_filler.py:433-443 | score by score, after dedup and aggregation: nothing changes outside the window from the aligned start to the end; a score that was stored is kept, once from start_ms on; a new score holds the aggregation of its stored minutes if it is a bar with all of them, the bar that start_ms falls into included, and nothing otherwise |
| Filler.EveryFullBarOnce | cpp/scripts/fast_kline_filler.py:433-443 | every fully covered bar of the window exists exactly once, and so does a new one that start_ms falls into |
| Filler.ProcessSymbol | cpp/scripts/fast_kline_filler.py:411-446 | the whole repair of one symbol from any data in order: its minutes as in RepairMinutes; its bars as in BarsRebuilt if some minute is stored now that was not before, and unchanged if none is; every other key unchanged |
| Filler.SecondRunChangesNothing | cpp/scripts/fast_kline_filler.py:411-446 | after a run with reliable servers, a further run over the same window and market fills nothing and changes no sorted set |
| Filler.RepairKeepsOrder | cpp/scripts/fast_kline_filler.py:411-446 | the data is in order after a run, so that runs can follow one another |
| Filler.ProcessExchangeBatch | cpp/scripts/fast_kline_filler.py:395-448 | every symbol of the batch is repaired, every other key is unchanged, and the total is the sum of the numbers of new minutes |
| EventEngines.EventEngine.RegisterListener | cpp/core/event_engine.h:55-70 | appends to the listeners of one type with a fresh identifier, and is refused during dispatch |
| EventEngines.EventEngine.RegisterGlobalListener | cpp/core/event_engine.h:76-93 | the same for senior and junior listeners |
| EventEngines.EventEngine.Put | cpp/core/event_engine.h:105-135 | refuses null; stamps source, time and producer; during dispatch only enqueues, otherwise delivers everything put until the queue is empty, in put order, and leaves the engine idle |
| EventEngines.EventEngine.UpdateClock | cpp/core/event_engine.h:140-144 | the clock becomes the later of the two times |
| EventEngines.EventEngine.Drain | cpp/core/event_engine.h:185-239 | takes exactly the steps of the transition system until the queue is empty and resets the flags |
| EventEngines.EventEngine.Dispatch | cpp/core/event_engine.h:193-236 | hands one event to senior, typed and junior listeners in registration order, skipping only self-ignoring producers |
| EventEngines.RunIsFaithful | cpp/core/event_engine.h:185-239 | in every run, for any listeners, what was delivered is what is owed to the events handled so far, in the order they were put |
| EventEngines.PutDeliversAll | cpp/core/event_engine.h:105-135 | a top-level put delivers the event and everything put because of it, in put order, starting with the event itself |
| EventEngines.DeliveredAsOftenAsPut | cpp/core/event_engine.h:185-239 | an event is owed to a listener exactly as often as it was put, if the listener is registered for it and not its self-ignoring producer, and never otherwise |
| EventEngines.ExactlyOnce | cpp/core/event_engine.h:185-239 | in particular exactly once when the events can be told apart |
| EventEngines.PutDeliversEach | cpp/core/event_engine.h:105-135 | over a top-level put, whatever the listeners put in turn, each event is delivered to each listener that is to receive it exactly as often as it was put |
| EventEngines.EveryListIsServed | cpp/core/event_engine.h:185-239 | from the three lists alone: over a top-level put, each listener that stands in the senior list, in the list of the event's type or in the junior list, and is not the producer of the event with self-events ignored, gets the event exactly as often as it was put, and nobody else gets it |
| EventEngines.RoundKeepsListOrder | cpp/core/event_engine.h:193-236 | a round delivers the oldest event only, to seniors before typed ones before juniors, and within a list in the order of registration |
| EventEngines.PutDeliversExactlyOnce | cpp/core/event_engine.h:105-135 | in particular exactly once when the events put can be told apart |
| EventEngines.OutsideEventsReachAll | cpp/core/event_engine.h:205-212 | an event put from outside is skipped by no listener |
| EventEngines.RegisteredAreDistinct | cpp/core/event_engine.h:55-93 | identifiers handed out by registration never collide |
| EventEngines.RegisteredOwnIds | cpp/core/event_engine.h:55-93 | no identifier handed out by registration stands at two places of the three lists |
| EventEngines.ClockIsMonotone | cpp/core/event_engine.h:118-144 | the clock never runs back, no event put is ahead of it, and every one has been given a source |
| EventEngines.StampFillsIn | cpp/core/event_engine.h:105-135 | put keeps identity and type, names the producer, and fills in source and timestamp only where they are missing; the clock takes the later time |
| EventEngines.DrainTerminates | cpp/core/event_engine.h:185-239 | if along the run each event causes at most B new ones of lower rank, the queue is empty after at most the sum of (B+1)^rank rounds, for any B |
| RiskRules.RateLimitsHold | cpp/trading/risk_manager.h:889-917 | in every run with a passing check before each record, no 1-second window holds more records than the limit and no 61-second window more than the limit per minute |
| RiskRules.OrderPathRateHolds | cpp/server/handlers/order_processor.cpp:151-186 | the order path, which records an order right behind its own passing check, keeps both limits in every run with a clock that does not run back |
| RiskRules.RateCheckIsExact | cpp/trading/risk_manager.h:889-917 | after any checks and records with a clock that does not run back, a check passes if and only if, of everything ever recorded, fewer than the limit is less than a second old and fewer than the limit per minute is less than 61 seconds old; it keeps exactly the records less than 61 seconds old |
| RiskRules.CheckIsExact | cpp/trading/risk_manager.h:889-917 | the same for any sorted history of which the deque is the recent end |
| RiskRules.SizeCastMeaning | cpp/trading/risk_manager.h:909-913 | the cast to an unsigned size keeps a limit that is not negative and makes a negative one unreachable |
| RiskRules.EarlyExitAgrees | cpp/trading/risk_manager.h:784-796 | counting from the back with early exit equals the full scan on a sorted deque |
| RiskManagers.RiskManager.CheckRateLimit | cpp/trading/risk_manager.h:889-917 | the deque keeps exactly the records less than 61 seconds old when it is sorted and not in the future, and the check accepts exactly when both counts are below their limits |
| RiskManagers.RiskManager.GetCurrentOrderRate | cpp/trading/risk_manager.h:784-796 | the number of records less than a second old, when the deque is sorted and not in the future |
| RiskManagers.RiskManager.RecordOrderExecution | cpp/trading/risk_manager.h:776-779 | appends one record |
| RiskManagers.RiskManager.CalculateTotalExposure | cpp/trading/risk_manager.h:880-887 | the sum of absolute position values, in whatever order the map is visited |
| RiskRules.ExposureOfUpdate | cpp/trading/risk_manager.h:471-474 | storing one position changes the exposure by exactly the difference of the absolute values |
| RiskManagers.RiskManager.CheckOrderWithValue | cpp/trading/risk_manager.h:395-466 | the result is the first check that turns the order down, in the order of the source; the deque is pruned only when the rate check is reached |
| RiskRules.AcceptedMeans | cpp/trading/risk_manager.h:395-466 | an order is accepted if and only if the kill switch is off, value, quantity, number of open orders, position, exposure and daily loss are within their limits, and both counts of recent records are below theirs |
| RiskRules.OrderStaysWithin | cpp/trading/risk_manager.h:433-449 | an accepted order with a non-negative value leaves every position and the exposure within the limits |
| RiskRules.OrdersStayWithin | cpp/trading/risk_manager.h:433-474 | so does every sequence of such orders, each followed by the position update |
| RiskRules.SafeIffNotNegative | cpp/trading/risk_manager.h:395-466 | accepted orders of a value keep the limits, in every state of the manager, if and only if the value is not negative |
| RiskRules.NegativeValueBreaksLimits | cpp/trading/risk_manager.h:395-466 | for every negative value a new manager accepts an order through all eight checks whose position exceeds the exposure limit |
| RiskRules.StoredSafeIff | cpp/trading/risk_manager.h:395-466 | for any stored and any true position: accepted orders keep the true position within its limit if and only if it is not above the stored value for purchases, not below it for sales |
| RiskRules.StoredBreaksLimit | cpp/trading/risk_manager.h:395-466 | in every other case an order that passes all eight checks and breaks the limit |
| RiskRules.UnsignedSafeIff | cpp/server/managers/account_monitor.h:466-466 | with the absolute value freshly stored: if and only if they are not sales on a short position |
| RiskRules.ClosedPositionStaysStored | cpp/server/managers/account_monitor.h:780-786 | the websocket update that reports a position closed leaves it stored; after it purchases are safe and sales are not |
| RiskRules.SaleOnShortBreaksLimit | cpp/server/managers/account_monitor.h:466-466 | for every short position an accepted sale that doubles it over the limit |
| RiskRules.ExposureHoldsUnsigned | cpp/server/managers/account_monitor.h:466-466 | with absolute values stored as positions change, the true exposure stays within its limit over every run of orders with non-negative values |
| RiskManagers.RiskManager.AdmitOrder | cpp/server/handlers/order_processor.cpp:151-186 | the order path: passes exactly the accepted orders, records them behind the pruned deque, and stores no position |
| RiskManagers.RiskManager.PlaceOrder | cpp/trading/risk_manager.h:395-474 | for a caller that stores the signed new position of every accepted order: the limits are kept and no position changes otherwise |
| RiskRules.TracksAreCurrentDay | cpp/trading/risk_manager.h:499-580 | after any updates of any strategies on any days, initial equity is the first value and peak the maximum of the strategy's current day |
| RiskRules.AlertMeans | cpp/trading/risk_manager.h:499-580 | for positive equities, an update alerts if and only if it is not the first of its day and lies below the first equity of the day (mode daily_initial) or below the largest of the day (every other mode) by more than the allowed share of it |
| RiskRules.InitialAlertImpliesPeakAlert | cpp/trading/risk_manager.h:536-549 | an update that alerts in mode daily_initial also alerts in mode daily_peak |
| RiskManagers.RiskManager.UpdateAccountEquity | cpp/trading/risk_manager.h:499-580 | updates one strategy's record, leaves all others alone, and alerts by the rule of the configured mode, whose meaning is `AlertMeans` |
| Base64.EncodeAccumulating | cpp/network/auth_manager.h:464-480 | the accumulator encoder produces the encoding of section 4 of RFC 4648 for every input, though its int wraps |
| Base64.EncodeGrouped | cpp/adapters/okx/okx_rest_api.cpp:68-110 | the three-byte encoder produces the same |
| Base64.DecodeAccumulating | cpp/network/auth_manager.h:483-508 | the decoder gives the whole bytes of the sextets before the first character outside its table |
| Base64.RoundTrip | cpp/network/auth_manager.h:464-508 | decoding undoes encoding for every byte string |
| Base64.NoDot | cpp/network/auth_manager.h:464-480 | no encoding contains a dot |
| Base64.EncodedLength | cpp/network/auth_manager.h:464-480 | an encoding has four characters for every three bytes begun |
| Base64.AlphabetIsTable | cpp/network/auth_manager.h:464-480 | the characters are the 64 of table 1 of RFC 4648, in its order |
| Base64.CodeMeaning | cpp/network/auth_manager.h:483-508 | the decoder's table gives each letter of the alphabet its place, knows no other character below 128, and reads characters from 128 on as zero |
| Base64.TestVectors | cpp/network/auth_manager.h:464-480 | the encodings of the empty string, f, fo, foo and foob are those of section 10 of RFC 4648 |
| Tokens.Base64IsSound | cpp/network/auth_manager.h:464-508 | the code's base64 has what tokens need of an encoding |
| Tokens.Split | cpp/network/auth_manager.h:546-557 | first and last dot recover the three parts when the outer ones hold no dot |
| Tokens.TokenRoundTrip | cpp/network/auth_manager.h:511-579 | parsing recovers user, role and expiry from every generated token |
| Tokens.ParsesExactlySigned | cpp/network/auth_manager.h:546-579 | a string parses if and only if it is some header and payload followed by their signature, with a readable payload |
| Tokens.SignatureCoversPayload | cpp/network/auth_manager.h:546-579 | a string parses exactly when what stands behind its last dot is the encoded signature of everything in front of that dot, payload included, and what stands between its first and last dot is a readable payload |
| Tokens.TokenText | cpp/network/auth_manager.h:511-543 | a token is the encoded header, a dot, the encoded payload of user, role, expiry and issue time, a dot, and the encoded signature of all that precedes |
| Tokens.PayloadMeaning | cpp/network/auth_manager.h:565-579 | a payload gives the role of super administrator only under its name, and missing fields read as no user and an expiry of zero |
| Tokens.StepKeepsCache | cpp/network/auth_manager.h:134-176 | every call keeps each cached entry equal to what the parser returns |
| Tokens.VerifyIgnoresCache | cpp/network/auth_manager.h:134-167 | after any calls a token is accepted exactly when it was never logged out, parses and has not expired |
| Tokens.IssuedTokenIsGood | cpp/network/auth_manager.h:134-176 | an issued token is accepted with its user and role until its lifetime ends or it is logged out, whatever else is called |
| Tokens.InvalidationChangesNoAnswer | cpp/network/auth_manager.h:582-590 | dropping a user's cached tokens changes no verification result |
| Tokens.LifetimeIsExact | cpp/network/auth_manager.h:512-512 | the int product is the configured lifetime if and only if the hours are between -597 and 597, and otherwise the 32-bit number congruent to it |
| Tokens.AuthManager.GenerateToken | cpp/network/auth_manager.h:511-543 | returns the signed token of the user; the cache gains exactly this entry, with user, role and the end of the lifetime |
| Tokens.AuthManager.ParseToken | cpp/network/auth_manager.h:546-579 | gives what `SignatureCoversPayload` says: refuses exactly what is not signed in full or not readable |
| Tokens.AuthManager.VerifyToken | cpp/network/auth_manager.h:134-167 | answers as without a cache; an accepted token is cached until it expires, a refused one is not cached unless revoked, and no other entry changes |
| Tokens.AuthManager.Logout | cpp/network/auth_manager.h:172-176 | revokes the token and uncaches it |
| Tokens.AuthManager.InvalidateUserTokens | cpp/network/auth_manager.h:582-590 | removes exactly the user's cached entries, in any iteration order |
| ConfigDiff.DiffersMeans | cpp/core/config_center.h:740-758 | a path is reported if and only if the values there differ, are not both objects, and are both objects everywhere above |
| ConfigDiff.SilentIffAlike | cpp/core/config_center.h:740-758 | nothing is reported exactly when the trees are equal up to null members |
| ConfigDiff.AlikeIsEqual | cpp/core/config_center.h:751-752 | for trees without null members that is equality |
| ConfigDiff.NullMemberIsSilent | cpp/core/config_center.h:751-752 | adding a null member is a difference that is never reported |
| ConfigDiff.PutAllLook | cpp/core/config_center.h:740-758 | after applying some reports in any order the tree is new below the reported paths and old elsewhere |
| ConfigDiff.KeysOfDotted | cpp/core/config_center.h:750-750 | a path is recovered from its dotted form if and only if no key holds a dot and the first is not empty |
| ConfigDiff.PatchIffNoDotReported | cpp/core/config_center.h:735-758 | with no empty top-level name reported, applying the notifications gives the new tree if and only if no reported path holds a dot in a key |
| ConfigDiff.EmptyNameDependsOnOrder | cpp/core/config_center.h:740-758 | with an empty top-level name reported, one order of the notifications gives the new tree and another gives nothing |
| ConfigDiff.DottedKeysCollide | cpp/core/config_center.h:740-758 | a family of trees in which two members are notified under one path and applying the notifications does not give the new tree |
| ConfigDiff.NotificationsAreAPatch | cpp/core/config_center.h:735-758 | when no key holds a dot and no top-level key is empty: applied by dotted path, the notifications turn the old tree into the new one; no path is reported twice; old values are the old tree's |
| ConfigDiff.NoNotificationIffSame | cpp/core/config_center.h:735-758 | no notification is sent if and only if the trees are the same |
| ConfigDiff.HearsMeans | cpp/core/config_center.h:764-766 | in terms of keys, exactly which paths a listener hears |
| ConfigDiff.ListenerReceives | cpp/core/config_center.h:761-772 | a listener receives exactly the changes its key lets through, once each and in order |
| ConfigDiff.DeliveriesInOrder | cpp/core/config_center.h:761-772 | one change goes to exactly the listeners that hear its key, once each, by ascending identifier |
| ConfigDiff.ReplicaFollows | cpp/core/config_center.h:735-772 | a listener with an empty key that applies what it receives holds the new configuration |
| ConfigDiff.ConfigCenter.NotifySingleChange | cpp/core/config_center.h:761-772 | calls the listeners that hear the key, by ascending identifier |
| ConfigDiff.ConfigCenter.CompareAndNotify | cpp/core/config_center.h:740-758 | sends every difference exactly once, under its dotted path |
| ConfigDiff.ConfigCenter.NotifyChanges | cpp/core/config_center.h:735-738 | the same from the root |
| Subscriptions.RefKeyInjective | cpp/server/handlers/subscription_manager.cpp:99-99 | for symbols without a colon the reference key determines symbol and interval |
| Subscriptions.RequestIsLocal | cpp/server/handlers/subscription_manager.cpp:98-147 | a request changes nothing about any other kline |
| Subscriptions.CountsAreHolders | cpp/server/handlers/subscription_manager.cpp:98-147 | in disciplined runs a kline is subscribed iff main or a strategy holds it, and a stored count is the number of holders, at least one |
| Subscriptions.CountIsNet | cpp/server/handlers/subscription_manager.cpp:98-147 | in every run, a kline main does not hold is subscribed exactly while subscribes exceed effective unsubscribes, and its count is that difference |
| Subscriptions.StartupSurvives | cpp/server/trading_server_main.cpp:612-621 | in disciplined runs a startup subscription is never dropped |
| Subscriptions.ExtraUnsubscribeDropsStartup | cpp/server/handlers/subscription_manager.cpp:126-141 | one unsubscribe too many does drop it |
| Subscriptions.StartupSurvivesIff | cpp/server/handlers/subscription_manager.cpp:98-147 | it is never dropped if and only if, from the first subscribe on, unsubscribes never outnumber subscribes |
| Subscriptions.SubscriptionManager.Startup | cpp/server/trading_server_main.cpp:612-621 | subscribing in batches of 100 leaves exactly the 1m kline of every symbol subscribed and recorded |
| Subscriptions.SubscriptionManager.HandleSubscription | cpp/server/handlers/subscription_manager.cpp:98-147 | the request changes counts, record and feed as one step of the model, and nothing without a websocket |

## Left out

- Sockets, HTTP, ZeroMQ, threads, locks, logging, alerts and process handling: input and output only. Calls that the
  code makes under one lock, and each Redis script, are one step.
- Request builders, response field copying, account registry and strategy loaders: straight-line code.
- The other halves of `preload_klines_to_redis.py` and `auto_kline_monitor_v2.py`: their fetch loops repeat the ones
  modelled; `store_klines` is a plain ZADD.
- The Binance branch of the subscription handler and the other OKX channels: no reference counts.
- Floating-point rounding: prices, volumes and equities are reals.
- 64-bit overflow of timestamps: times are unbounded integers. Signed 32-bit overflow is modelled as wrap-around.
- Members of a sorted set that are not valid JSON, or whose candle has another timestamp than their score: the repair
  theorems start from sets in which every member sits under its own timestamp.
- Key expiry and connection errors of Redis: a call takes effect.
- SortedSets.Redis.RangeByScore: leaves the order of members with equal scores open, where Redis orders them by their
  text; the theorems hold for every such order.
- Filler.ProcessExchangeBatch: requires the symbols of a batch to be distinct, as the caller builds it from a set of
  keys. Of minutes in front of the window that are stored more than once, which of the members enters the bar that the
  start falls into is left open.
- EventEngines.EventEngine.Put: a top-level put requires that some number of rounds empties the queue; when that holds
  is the subject of `DrainTerminates`. A null event, which throws in the source, is an answer of false.
- Listeners that throw something other than a standard exception, and putting an event object again while it is queued.
- RiskManagers.RiskManager.PlaceOrder: assumes a caller that stores the signed new position before the next check. No
  code of the framework does: the order path checks and records an order (order_processor.cpp:151, 186), and positions
  are stored by the account monitor alone, later and without sign. Orders accepted between two of its updates are
  checked against the same positions, as in `check_batch_orders`; no bound is claimed for them together.
- SHA-256, HMAC, JSON printing and parsing: parameters. Users, passwords and permissions: not modelled.
- Tokens.AuthManager.VerifyToken: when it refuses, the contents of the caller's out-parameter are not modelled.
- Base64.DecodeAccumulating: characters from 128 on read as zero, as in the code's table.
- ConfigDiff.NotificationsAreAPatch: requires keys without a dot and no empty key at the top, and equality of the trees
  requires that there are no null members; without the latter the trees agree up to them.
- Nested values inside JSON arrays: the code compares arrays whole, and so does the model.
- Subscriptions.CountsAreHolders: requires symbols without a colon, as both exchanges' symbols are.
