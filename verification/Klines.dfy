/** Candles ("klines"), their order by open time, and the library sort. */
module Klines {

  datatype Option<+T> = None | Some(value: T)

  datatype Kline = Kline(
    timestamp: int, open: real, high: real, low: real, close: real, volume: real)

  const MINUTE_MS := 60_000

  ghost predicate Ascending(ks: seq<Kline>) {
    forall i, j | 0 <= i < j < |ks| :: ks[i].timestamp < ks[j].timestamp
  }

  ghost predicate Descending(ks: seq<Kline>) {
    forall i, j | 0 <= i < j < |ks| :: ks[i].timestamp > ks[j].timestamp
  }

  /** No two candles of `candles` share an open time. */
  ghost predicate OnePerTimestamp(candles: set<Kline>) {
    forall a, b | a in candles && b in candles && a.timestamp == b.timestamp :: a == b
  }

  ghost predicate MinuteAligned(t: int) {
    t % MINUTE_MS == 0
  }

  /** The candles whose open time lies in the closed interval [lo, hi]. */
  ghost function Within(candles: set<Kline>, lo: int, hi: int): set<Kline> {
    set c | c in candles && lo <= c.timestamp <= hi
  }

  ghost function Elements(ks: seq<Kline>): set<Kline> {
    set c | c in ks
  }

  /** Library sort by open time. */
  function SortByTimestamp(ks: seq<Kline>): (r: seq<Kline>) {
    if ks == [] then [] else Insert(ks[0], SortByTimestamp(ks[1..]))
  }

  function Insert(k: Kline, ks: seq<Kline>): (r: seq<Kline>) {
    if ks == [] || k.timestamp <= ks[0].timestamp then [k] + ks
    else [ks[0]] + Insert(k, ks[1..])
  }

  ghost predicate NoSharedTimestamp(ks: seq<Kline>) {
    forall i, j | 0 <= i < j < |ks| :: ks[i].timestamp != ks[j].timestamp
  }

  /** Sorting a list in which no open time occurs twice gives the ascending list of the same candles. */
  lemma {:induction false} SortOfDistinct(ks: seq<Kline>)
    requires NoSharedTimestamp(ks)
    ensures Ascending(SortByTimestamp(ks)) && Elements(SortByTimestamp(ks)) == Elements(ks)
  {
    if ks != [] {
      var rest := SortByTimestamp(ks[1..]);
      SortOfDistinct(ks[1..]);
      forall c | c in rest
        ensures c.timestamp != ks[0].timestamp
      {
        assert c in Elements(ks[1..]);
      }
      InsertAscending(ks[0], rest);
      assert Elements(ks) == Elements(ks[1..]) + {ks[0]} by { assert ks == [ks[0]] + ks[1..]; }
    }
  }

  lemma {:induction false} InsertAscending(k: Kline, ks: seq<Kline>)
    requires Ascending(ks) && forall c | c in ks :: c.timestamp != k.timestamp
    ensures Ascending(Insert(k, ks)) && Elements(Insert(k, ks)) == Elements(ks) + {k}
  {
    if ks != [] && k.timestamp > ks[0].timestamp {
      InsertAscending(k, ks[1..]);
      var rest := Insert(k, ks[1..]);
      forall i | 0 <= i < |rest|
        ensures rest[i].timestamp > ks[0].timestamp
      {
        assert rest[i] in Elements(ks[1..]) + {k};
      }
      ElementsOfCons(ks[0], ks[1..]);
      ElementsOfCons(ks[0], rest);
      assert ks == [ks[0]] + ks[1..];
    } else {
      ElementsOfCons(k, ks);
    }
  }

  lemma ElementsOfCons(k: Kline, ks: seq<Kline>)
    ensures Elements([k] + ks) == Elements(ks) + {k}
  {
  }

  lemma EmptyElements(ks: seq<Kline>)
    ensures Elements(ks) == {} <==> ks == []
  {
    if ks != [] { assert ks[0] in Elements(ks); }
  }

  /** A strictly ascending list is determined by its elements. */
  lemma {:induction false} AscendingUnique(a: seq<Kline>, b: seq<Kline>)
    requires Ascending(a) && Ascending(b) && Elements(a) == Elements(b)
    ensures a == b
  {
    if a == [] || b == [] {
      EmptyElements(a);
      EmptyElements(b);
    } else {
      assert a[0] in Elements(b);
      assert a[0] in Elements(b) && b[0] in Elements(a);
      assert a[0] == b[0];
      forall c
        ensures c in a[1..] <==> c in b[1..]
      {
        assert c in Elements(a) <==> c in Elements(b);
        assert a == [a[0]] + a[1..] && b == [b[0]] + b[1..];
        assert a[0] !in a[1..] && b[0] !in b[1..];
      }
      AscendingUnique(a[1..], b[1..]);
      assert a == [a[0]] + a[1..] && b == [b[0]] + b[1..];
    }
  }
}
