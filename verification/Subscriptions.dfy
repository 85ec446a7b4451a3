/**
  The reference-counted OKX kline subscriptions of subscription_manager.cpp, refined by a set of holders: the main
  program, which subscribes every 1m kline at startup, and the strategies that asked for a kline.
*/
module Subscriptions {
  import opened Klines

  datatype Key = Key(symbol: string, interval: string)

  /** A request as handle_subscription reads it; other actions than the two are let through and do nothing. */
  datatype Request = Request(action: string, key: Key, strategy: string)

  function RefKey(k: Key): string {
    k.symbol + ":" + k.interval
  }

  predicate ColonFree(k: Key) {
    ':' !in k.symbol
  }

  lemma RefKeyInjective(a: Key, b: Key)
    requires ColonFree(a) && ColonFree(b)
    ensures RefKey(a) == RefKey(b) <==> a == b
  {
    if RefKey(a) == RefKey(b) {
      var s := RefKey(a);
      assert s[|a.symbol|] == ':' && s[|b.symbol|] == ':';
      assert forall i | 0 <= i < |a.symbol| :: s[i] == a.symbol[i];
      assert forall i | 0 <= i < |b.symbol| :: s[i] == b.symbol[i];
      assert |a.symbol| == |b.symbol|;
      assert a.symbol == s[..|a.symbol|] == b.symbol;
      assert a.interval == s[|a.symbol| + 1..] == b.interval;
    }
  }

  /** g_okx_kline_ref_count, g_subscribed_klines, and what the business websocket is subscribed to. */
  datatype State = State(refs: map<string, int>, subscribed: map<string, set<string>>, feed: set<Key>)

  /** `g_subscribed_klines[symbol]`, which makes an empty entry when there is none. */
  function Intervals(subscribed: map<string, set<string>>, symbol: string): set<string> {
    if symbol in subscribed then subscribed[symbol] else {}
  }

  function Subscribe(s: State, k: Key): State {
    var intervals := Intervals(s.subscribed, k.symbol);
    var touched := s.subscribed[k.symbol := intervals];
    if RefKey(k) in s.refs then State(s.refs[RefKey(k) := s.refs[RefKey(k)] + 1], touched, s.feed)
    else if k.interval in intervals then State(s.refs[RefKey(k) := 2], touched, s.feed)
    else State(s.refs[RefKey(k) := 1], touched[k.symbol := intervals + {k.interval}], s.feed + {k})
  }

  function Unsubscribe(s: State, k: Key): State {
    if RefKey(k) !in s.refs then s
    else if s.refs[RefKey(k)] - 1 > 0 then s.(refs := s.refs[RefKey(k) := s.refs[RefKey(k)] - 1])
    else
      State(s.refs - {RefKey(k)},
            s.subscribed[k.symbol := Intervals(s.subscribed, k.symbol) - {k.interval}],
            s.feed - {k})
  }

  function After(s: State, r: Request): State {
    if r.action == "subscribe" then Subscribe(s, r.key)
    else if r.action == "unsubscribe" then Unsubscribe(s, r.key)
    else s
  }

  /** The state the main program leaves before requests are served. */
  function Started(symbols: set<string>): State {
    State(map[], map s | s in symbols :: {"1m"}, set s | s in symbols :: Key(s, "1m"))
  }

  function Run(symbols: set<string>, requests: seq<Request>): State {
    if requests == [] then Started(symbols)
    else After(Run(symbols, requests[..|requests| - 1]), requests[|requests| - 1])
  }

  // ---------------------------------------------------------------------------------------------
  // One kline at a time
  // ---------------------------------------------------------------------------------------------

  /** What the state says about one kline. */
  datatype View = View(count: Option<int>, listed: bool, live: bool)

  function ViewOf(s: State, k: Key): View {
    View(
      if RefKey(k) in s.refs then Some(s.refs[RefKey(k)]) else None,
      k.interval in Intervals(s.subscribed, k.symbol),
      k in s.feed)
  }

  function StepView(v: View, action: string): View {
    if action == "subscribe" then
      match v.count
      case Some(c) => v.(count := Some(c + 1))
      case None => if v.listed then v.(count := Some(2)) else View(Some(1), true, true)
    else if action == "unsubscribe" then
      match v.count
      case Some(c) => if c > 1 then v.(count := Some(c - 1)) else View(None, false, false)
      case None => v
    else v
  }

  /** A request moves the view of its own kline and of no other. */
  lemma RequestIsLocal(s: State, r: Request, k: Key)
    requires ColonFree(k) && ColonFree(r.key)
    ensures ViewOf(After(s, r), k) == if k == r.key then StepView(ViewOf(s, k), r.action) else ViewOf(s, k)
  {
    RefKeyInjective(k, r.key);
  }

  predicate AllColonFree(requests: seq<Request>) {
    forall i | 0 <= i < |requests| :: ColonFree(requests[i].key)
  }

  predicate MainHolds(symbols: set<string>, k: Key) {
    k.symbol in symbols && k.interval == "1m"
  }

  lemma StartedView(symbols: set<string>, k: Key)
    ensures ViewOf(Started(symbols), k) == View(None, MainHolds(symbols, k), MainHolds(symbols, k))
  {
  }

  // ---------------------------------------------------------------------------------------------
  // Holders
  // ---------------------------------------------------------------------------------------------

  /** The strategies that hold a kline, each as often as it subscribed and has not yet unsubscribed. */
  function Holders(requests: seq<Request>, k: Key): multiset<string> {
    if requests == [] then multiset{}
    else
      var last := requests[|requests| - 1];
      var before := Holders(requests[..|requests| - 1], k);
      if last.key != k then before
      else if last.action == "subscribe" then before + multiset{last.strategy}
      else if last.action == "unsubscribe" then before - multiset{last.strategy}
      else before
  }

  /** Every unsubscribe comes from a strategy that holds the kline. */
  predicate Disciplined(requests: seq<Request>) {
    requests == [] ||
    (var last, before := requests[|requests| - 1], requests[..|requests| - 1];
     && Disciplined(before)
     && (last.action == "unsubscribe" ==> last.strategy in Holders(before, last.key)))
  }

  ghost predicate Tracks(v: View, main: bool, holders: multiset<string>) {
    && (v.listed <==> v.live)
    && (v.live <==> main || holders != multiset{})
    && match v.count
       case None => holders == multiset{}
       case Some(c) => c == (if main then 1 else 0) + |holders| && c >= 1
  }

  lemma TracksStep(v: View, main: bool, holders: multiset<string>, action: string, strategy: string)
    requires Tracks(v, main, holders)
    requires action == "unsubscribe" ==> strategy in holders
    ensures action == "subscribe" ==> Tracks(StepView(v, action), main, holders + multiset{strategy})
    ensures action == "unsubscribe" ==> Tracks(StepView(v, action), main, holders - multiset{strategy})
    ensures action != "subscribe" && action != "unsubscribe" ==> StepView(v, action) == v
  {
    if action == "unsubscribe" {
      assert holders == (holders - multiset{strategy}) + multiset{strategy};
    }
  }

  /**
    In every disciplined run, for every kline: it is subscribed exactly when the main program or some strategy holds
    it; a stored count is the number of holders, never less than one; and without a count no strategy holds it.
  */
  lemma {:induction false} CountsAreHolders(symbols: set<string>, requests: seq<Request>, k: Key)
    requires AllColonFree(requests) && ColonFree(k) && Disciplined(requests)
    ensures Tracks(ViewOf(Run(symbols, requests), k), MainHolds(symbols, k), Holders(requests, k))
  {
    if requests == [] {
      StartedView(symbols, k);
    } else {
      var before, last := requests[..|requests| - 1], requests[|requests| - 1];
      CountsAreHolders(symbols, before, k);
      RequestIsLocal(Run(symbols, before), last, k);
      if last.key == k {
        TracksStep(
          ViewOf(Run(symbols, before), k), MainHolds(symbols, k), Holders(before, k), last.action, last.strategy);
      }
    }
  }

  /** Subscribes less those unsubscribes that find one, whoever sent them. */
  function NetCount(requests: seq<Request>, k: Key): nat {
    if requests == [] then 0
    else
      var last := requests[|requests| - 1];
      var before := NetCount(requests[..|requests| - 1], k);
      if last.key != k then before
      else if last.action == "subscribe" then before + 1
      else if last.action == "unsubscribe" && before > 0 then before - 1
      else before
  }

  /**
    A kline that the main program does not hold is subscribed exactly while its net count is positive, and that is its
    stored count. The code does not look at who sent a request, and this needs no discipline.
  */
  lemma {:induction false} CountIsNet(symbols: set<string>, requests: seq<Request>, k: Key)
    requires AllColonFree(requests) && ColonFree(k) && !MainHolds(symbols, k)
    ensures var n := NetCount(requests, k);
      ViewOf(Run(symbols, requests), k) == if n == 0 then View(None, false, false) else View(Some(n), true, true)
  {
    if requests == [] {
      StartedView(symbols, k);
    } else {
      CountIsNet(symbols, requests[..|requests| - 1], k);
      RequestIsLocal(Run(symbols, requests[..|requests| - 1]), requests[|requests| - 1], k);
    }
  }

  /** In a disciplined run a startup subscription is never dropped. */
  lemma StartupSurvives(symbols: set<string>, requests: seq<Request>, symbol: string)
    requires AllColonFree(requests) && Disciplined(requests)
    requires symbol in symbols && ':' !in symbol
    ensures Key(symbol, "1m") in Run(symbols, requests).feed
  {
    CountsAreHolders(symbols, requests, Key(symbol, "1m"));
  }

  /** Without discipline it can be: the second unsubscribe of one strategy takes the main program's hold. */
  lemma ExtraUnsubscribeDropsStartup(symbol: string, strategy: string)
    ensures
      var k := Key(symbol, "1m");
      var requests := [Request("subscribe", k, strategy), Request("unsubscribe", k, strategy),
                       Request("unsubscribe", k, strategy)];
      k in Started({symbol}).feed && k !in Run({symbol}, requests).feed
  {
    var k := Key(symbol, "1m");
    var r0, r1 := Request("subscribe", k, strategy), Request("unsubscribe", k, strategy);
    assert [r0, r1, r1][..2] == [r0, r1] && [r0, r1][..1] == [r0] && [r0][..0] == [];
    assert Run({symbol}, []) == Started({symbol});
    assert Run({symbol}, [r0]) == After(Started({symbol}), r0);
    assert Run({symbol}, [r0, r1]) == After(Run({symbol}, [r0]), r1);
    assert Run({symbol}, [r0, r1, r1]) == After(Run({symbol}, [r0, r1]), r1);
  }

  /** Subscribes less unsubscribes since the first subscribe, whoever sent them; None before it. */
  function Balance(requests: seq<Request>, k: Key): Option<int> {
    if requests == [] then None
    else
      var last := requests[|requests| - 1];
      var before := Balance(requests[..|requests| - 1], k);
      if last.key != k then before else StepBalance(before, last.action)
  }

  function StepBalance(balance: Option<int>, action: string): Option<int> {
    if action == "subscribe" then Some(if balance.None? then 1 else balance.value + 1)
    else if action == "unsubscribe" && balance.Some? then Some(balance.value - 1)
    else balance
  }

  predicate NeverOverReleased(requests: seq<Request>, k: Key) {
    forall n | 0 <= n <= |requests| :: Balance(requests[..n], k) != Some(-1)
  }

  /** The view of a kline the main program holds, by its balance. */
  function MainViewOf(balance: Option<int>): View {
    match balance
    case None => View(None, true, true)
    case Some(b) => if b >= 0 then View(Some(b + 1), true, true) else View(None, false, false)
  }

  predicate NotNegative(balance: Option<int>) {
    balance.Some? ==> balance.value >= 0
  }

  lemma MainStep(balance: Option<int>, action: string)
    requires NotNegative(balance)
    ensures StepView(MainViewOf(balance), action) == MainViewOf(StepBalance(balance, action))
    ensures NotNegative(StepBalance(balance, action)) || StepBalance(balance, action) == Some(-1)
  {
  }

  /** Until it is over-released, the main program's kline is live and its count is one more than the balance. */
  lemma {:induction false} MainView(symbols: set<string>, requests: seq<Request>, k: Key)
    requires AllColonFree(requests) && ColonFree(k) && MainHolds(symbols, k)
    requires forall n | 0 <= n < |requests| :: Balance(requests[..n], k) != Some(-1)
    ensures ViewOf(Run(symbols, requests), k) == MainViewOf(Balance(requests, k))
    ensures NotNegative(Balance(requests, k)) || Balance(requests, k) == Some(-1)
  {
    if requests == [] {
      StartedView(symbols, k);
    } else {
      var m := |requests| - 1;
      PrefixNotOverReleased(requests, m, k);
      MainView(symbols, requests[..m], k);
      assert Balance(requests[..m], k) != Some(-1);
      RequestIsLocal(Run(symbols, requests[..m]), requests[m], k);
      MainStep(Balance(requests[..m], k), requests[m].action);
    }
  }

  ghost predicate LiveThroughout(symbols: set<string>, requests: seq<Request>, k: Key) {
    forall n | 0 <= n <= |requests| :: k in Run(symbols, requests[..n]).feed
  }

  /** Exactly when: from its first subscribe on, the unsubscribes for it never outnumber the subscribes. */
  lemma StartupSurvivesIff(symbols: set<string>, requests: seq<Request>, k: Key)
    requires AllColonFree(requests) && ColonFree(k) && MainHolds(symbols, k)
    ensures LiveThroughout(symbols, requests, k) <==> NeverOverReleased(requests, k)
  {
    if NeverOverReleased(requests, k) {
      forall n | 0 <= n <= |requests| ensures k in Run(symbols, requests[..n]).feed {
        PrefixNotOverReleased(requests, n, k);
        MainView(symbols, requests[..n], k);
        assert Balance(requests[..n], k) != Some(-1);
      }
    } else {
      var n := FirstOverRelease(requests, k);
      PrefixNotOverReleased(requests, n, k);
      MainView(symbols, requests[..n], k);
      assert k !in Run(symbols, requests[..n]).feed;
    }
  }

  lemma PrefixNotOverReleased(requests: seq<Request>, n: nat, k: Key)
    requires n <= |requests| && forall m | 0 <= m < n :: Balance(requests[..m], k) != Some(-1)
    ensures forall m | 0 <= m < n :: Balance(requests[..n][..m], k) != Some(-1)
  {
    assert forall m | 0 <= m < n :: requests[..n][..m] == requests[..m];
  }

  lemma FirstOverRelease(requests: seq<Request>, k: Key) returns (n: nat)
    requires !NeverOverReleased(requests, k)
    ensures n <= |requests| && Balance(requests[..n], k) == Some(-1)
    ensures forall m | 0 <= m < n :: Balance(requests[..m], k) != Some(-1)
  {
    n := 0;
    while Balance(requests[..n], k) != Some(-1)
      invariant n <= |requests|
      invariant forall m | 0 <= m < n :: Balance(requests[..m], k) != Some(-1)
      decreases |requests| - n
    {
      n := n + 1;
    }
  }

  // ---------------------------------------------------------------------------------------------
  // The program
  // ---------------------------------------------------------------------------------------------

  const OKX_BATCH_SIZE := 100

  class SubscriptionManager {
    var refCount: map<string, int>
    var subscribed: map<string, set<string>>
    /** What the business websocket is subscribed to. */
    var feed: set<Key>
    /** Whether g_ws_business is set. */
    var connected: bool

    ghost function Current(): State
      reads this
    {
      State(refCount, subscribed, feed)
    }

    constructor ()
      ensures Current() == State(map[], map[], {}) && !connected
    {
      refCount, subscribed, feed, connected := map[], map[], {}, false;
    }

    /** Connects, subscribes the 1m kline of every symbol in batches, and records them. */
    method Startup(symbols: seq<string>)
      requires Current() == State(map[], map[], {})
      modifies this
      ensures connected && Current() == Started(set s | s in symbols)
    {
      connected := true;
      var i := 0;
      while i < |symbols|
        invariant 0 <= i <= |symbols|
        invariant feed == set s | s in symbols[..i] :: Key(s, "1m")
        invariant refCount == map[] && subscribed == map[] && connected
      {
        var end := if i + OKX_BATCH_SIZE < |symbols| then i + OKX_BATCH_SIZE else |symbols|;
        feed := feed + set s | s in symbols[i..end] :: Key(s, "1m");
        assert symbols[..end] == symbols[..i] + symbols[i..end];
        i := end;
      }
      assert symbols[..i] == symbols;
      var j := 0;
      while j < |symbols|
        invariant 0 <= j <= |symbols|
        invariant subscribed == map s | s in symbols[..j] :: {"1m"}
        invariant refCount == map[] && feed == (set s | s in symbols :: Key(s, "1m")) && connected
      {
        assert symbols[..j + 1] == symbols[..j] + [symbols[j]];
        assert Intervals(subscribed, symbols[j]) + {"1m"} == {"1m"};
        subscribed := subscribed[symbols[j] := Intervals(subscribed, symbols[j]) + {"1m"}];
        j := j + 1;
      }
      assert symbols[..j] == symbols;
    }

    /** The OKX kline branch of handle_subscription. */
    method HandleSubscription(action: string, symbol: string, interval: string, ghost strategy: string)
      modifies this`refCount, this`subscribed, this`feed
      ensures Current() ==
        if connected then After(old(Current()), Request(action, Key(symbol, interval), strategy)) else old(Current())
    {
      var refKey := symbol + ":" + interval;
      if action == "subscribe" && connected {
        subscribed := subscribed[symbol := Intervals(subscribed, symbol)];
        var alreadySubscribed := interval in subscribed[symbol];
        if refKey !in refCount {
          if alreadySubscribed {
            refCount := refCount[refKey := 2];
          } else {
            refCount := refCount[refKey := 1];
            feed := feed + {Key(symbol, interval)};
            subscribed := subscribed[symbol := subscribed[symbol] + {interval}];
          }
        } else {
          refCount := refCount[refKey := refCount[refKey] + 1];
        }
      } else if action == "unsubscribe" && connected {
        if refKey in refCount {
          refCount := refCount[refKey := refCount[refKey] - 1];
          var count := refCount[refKey];
          if count <= 0 {
            feed := feed - {Key(symbol, interval)};
            subscribed := subscribed[symbol := Intervals(subscribed, symbol) - {interval}];
            refCount := refCount - {refKey};
          }
        }
      }
    }
  }
}
