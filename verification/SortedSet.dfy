/**
  The Redis sorted sets that hold the candles, and the two programs that rewrite them: the atomic upsert
  and the removal of duplicates.
*/
module SortedSets {
  import opened Klines

  /** The member text: one candle, in one of the spellings that JSON allows. The filler's own spelling is "". */
  datatype Member = Member(kline: Kline, spelling: string)

  /** A sorted set: member -> score. */
  type ZSet = map<Member, int>

  datatype Key = Key(exchange: string, symbol: string, interval: string)

  /** Every member is stored under its own timestamp. */
  ghost predicate Consistent(z: ZSet) {
    forall m | m in z :: z[m] == m.kline.timestamp
  }

  ghost function Scores(z: ZSet): set<int> {
    set m | m in z :: z[m]
  }

  /** The members with score `t`. */
  ghost function At(z: ZSet, t: int): set<Member> {
    set m | m in z && z[m] == t
  }

  ghost predicate InRange(z: ZSet, m: Member, lo: int, hi: int) {
    m in z && lo <= z[m] <= hi
  }

  /** Exactly one member has score `t`. */
  ghost predicate Single(z: ZSet, t: int) {
    exists m :: At(z, t) == {m}
  }

  /** `now` is `z` without the members `gone`. */
  ghost predicate Without(now: ZSet, z: ZSet, gone: set<Member>) {
    now.Keys == z.Keys - gone && forall m | m in now :: now[m] == z[m]
  }

  // ---------------------------------------------------------------------------------------------
  // Upsert
  // ---------------------------------------------------------------------------------------------

  /** One round of the script: delete what has this score, then add. */
  function Upsert(z: ZSet, score: int, value: Member): ZSet {
    (map m | m in z && z[m] != score :: z[m])[value := score]
  }

  function Stored(k: Kline): Member {
    Member(k, "")
  }

  function UpsertAll(z: ZSet, ks: seq<Kline>): ZSet {
    if ks == [] then z
    else Upsert(UpsertAll(z, ks[..|ks| - 1]), ks[|ks| - 1].timestamp, Stored(ks[|ks| - 1]))
  }

  lemma {:induction false} UpsertAllAppend(z: ZSet, a: seq<Kline>, b: seq<Kline>)
    ensures UpsertAll(z, a + b) == UpsertAll(UpsertAll(z, a), b)
  {
    if b == [] {
      assert a + b == a;
    } else {
      UpsertAllAppend(z, a, b[..|b| - 1]);
      assert (a + b)[..|a + b| - 1] == a + b[..|b| - 1];
    }
  }

  /** The last candle of the list with open time `t`. */
  ghost function LastWith(ks: seq<Kline>, t: int): Option<Kline> {
    if ks == [] then None
    else if ks[|ks| - 1].timestamp == t then Some(ks[|ks| - 1])
    else LastWith(ks[..|ks| - 1], t)
  }

  /**
    A written score ends with exactly one member, the last candle written under it; every other score keeps
    its members. Repetitions in the list are allowed.
  */
  lemma {:induction false} UpsertAllEffect(z: ZSet, ks: seq<Kline>, t: int)
    requires Consistent(z)
    ensures Consistent(UpsertAll(z, ks))
    ensures At(UpsertAll(z, ks), t) == match LastWith(ks, t) case None => At(z, t) case Some(k) => {Stored(k)}
  {
    if ks != [] {
      UpsertAllEffect(z, ks[..|ks| - 1], t);
      UpsertEffect(UpsertAll(z, ks[..|ks| - 1]), ks[|ks| - 1], t);
    }
  }

  lemma UpsertEffect(z: ZSet, k: Kline, t: int)
    requires Consistent(z)
    ensures Consistent(Upsert(z, k.timestamp, Stored(k)))
    ensures At(Upsert(z, k.timestamp, Stored(k)), t) == if k.timestamp == t then {Stored(k)} else At(z, t)
  {
  }

  lemma {:induction false} LastWithMeaning(ks: seq<Kline>, t: int)
    ensures LastWith(ks, t).None? <==> forall k | k in ks :: k.timestamp != t
    ensures LastWith(ks, t).Some? ==> LastWith(ks, t).value in ks && LastWith(ks, t).value.timestamp == t
  {
    if ks != [] {
      LastWithMeaning(ks[..|ks| - 1], t);
      assert ks == ks[..|ks| - 1] + [ks[|ks| - 1]];
    }
  }

  // ---------------------------------------------------------------------------------------------
  // The server
  // ---------------------------------------------------------------------------------------------

  /** `raw` lists the members with a score in [lo, hi] once each, by increasing score. */
  ghost predicate Lists(raw: seq<Member>, z: ZSet, lo: int, hi: int) {
    && (forall m :: m in raw <==> InRange(z, m, lo, hi))
    && (forall i, j | 0 <= i < j < |raw| :: raw[i] != raw[j])
    && (forall i, j | 0 <= i < j < |raw| ::
          InRange(z, raw[i], lo, hi) && InRange(z, raw[j], lo, hi) && z[raw[i]] <= z[raw[j]])
  }

  class Redis {
    var zsets: map<Key, ZSet>

    /** A key that is not there reads as an empty sorted set. */
    function Get(key: Key): ZSet
      reads this
    {
      if key in zsets then zsets[key] else map[]
    }

    /** ZRANGEBYSCORE. The order of members with equal scores is left open. */
    method RangeByScore(key: Key, lo: int, hi: int) returns (raw: seq<Member>)
      ensures Lists(raw, Get(key), lo, hi)
    {
      var z := Get(key);
      raw := [];
      var rest := set m | m in z && lo <= z[m] <= hi;
      while rest != {}
        invariant rest <= z.Keys
        invariant forall m :: m in raw || m in rest <==> InRange(z, m, lo, hi)
        invariant forall m | m in raw :: m !in rest
        invariant forall i, j | 0 <= i < j < |raw| :: raw[i] != raw[j]
        invariant forall i, j | 0 <= i < j < |raw| :: z[raw[i]] <= z[raw[j]]
        invariant forall m, n | m in raw && n in rest :: z[m] <= z[n]
        decreases |rest|
      {
        var m := SmallestScore(z, rest);
        rest := rest - {m};
        raw := raw + [m];
      }
    }

    static method SmallestScore(z: ZSet, from: set<Member>) returns (m: Member)
      requires from != {} && from <= z.Keys
      ensures m in from && forall n | n in from :: z[m] <= z[n]
    {
      m :| m in from;
      var rest := from - {m};
      while rest != {}
        invariant rest <= from && m in from
        invariant forall n | n in from - rest :: z[m] <= z[n]
        decreases |rest|
      {
        var n :| n in rest;
        rest := rest - {n};
        if z[n] < z[m] { m := n; }
      }
    }

    /** ZREM */
    method Remove(key: Key, m: Member)
      modifies this
      ensures Get(key) == old(Get(key)) - {m}
      ensures forall k | k != key :: Get(k) == old(Get(k))
    {
      zsets := zsets[key := Get(key) - {m}];
    }

    /** ZADD */
    method Add(key: Key, score: int, m: Member)
      modifies this
      ensures Get(key) == old(Get(key))[m := score]
      ensures forall k | k != key :: Get(k) == old(Get(k))
    {
      zsets := zsets[key := Get(key)[m := score]];
    }

    method RemoveAll(key: Key, members: seq<Member>)
      modifies this
      ensures Without(Get(key), old(Get(key)), Members(members))
      ensures forall k | k != key :: Get(k) == old(Get(k))
    {
      for j := 0 to |members|
        invariant Without(Get(key), old(Get(key)), Members(members[..j]))
        invariant forall k | k != key :: Get(k) == old(Get(k))
      {
        Remove(key, members[j]);
        assert members[..j + 1] == members[..j] + [members[j]];
      }
      assert members[..|members|] == members;
    }

    /** The upsert script, run as one atomic step. */
    method LuaUpsert(key: Key, ks: seq<Kline>) returns (count: nat)
      modifies this
      ensures Get(key) == UpsertAll(old(Get(key)), ks) && count == |ks|
      ensures forall k | k != key :: Get(k) == old(Get(k))
    {
      count := 0;
      for i := 0 to |ks|
        invariant count == i && Get(key) == UpsertAll(old(Get(key)), ks[..i])
        invariant forall k | k != key :: Get(k) == old(Get(k))
      {
        ghost var before := Get(key);
        var score := ks[i].timestamp;
        var existing := RangeByScore(key, score, score);
        RemoveAll(key, existing);
        UpsertByRemoval(before, score, existing, Get(key), Stored(ks[i]));
        Add(key, score, Stored(ks[i]));
        assert ks[..i + 1][..i] == ks[..i];
        count := count + 1;
      }
      assert ks[..|ks|] == ks;
    }

    /** dedup_klines: of the members that share a score in [lo, hi], keep the one listed first. */
    method Dedup(key: Key, lo: int, hi: int) returns (removed: nat, ghost listed: seq<Member>)
      modifies this
      ensures Lists(listed, old(Get(key)), lo, hi)
      ensures forall t | WithScore(old(Get(key)), listed, t) != [] ::
        At(Get(key), t) == {WithScore(old(Get(key)), listed, t)[0]}
      ensures Deduplicated(old(Get(key)), Get(key), lo, hi)
      ensures removed == |Window(old(Get(key)), lo, hi)| - |WindowScores(old(Get(key)), lo, hi)|
      ensures forall k | k != key :: Get(k) == old(Get(k))
    {
      var raw := RangeByScore(key, lo, hi);
      assert forall i | 0 <= i < |raw| :: raw[i] in raw && InRange(Get(key), raw[i], lo, hi);
      var groups, order := GroupByScore(Get(key), raw);
      assert forall i | 0 <= i < |order| :: order[i] in order;
      removed := DropRepeats(key, groups, order);
      EveryMemberInOneGroup(groups, order, old(Get(key)), raw, raw);
      FirstOfEachGroup(groups, order, old(Get(key)), raw, lo, hi, Get(key));
      WindowCounts(groups, order, old(Get(key)), raw, lo, hi);
      listed := raw;
      FirstsSurvive(groups, order, old(Get(key)), raw, lo, hi, Get(key));
    }

    /** The members of each score, and the scores in the order they were first seen. */
    static method GroupByScore(z: ZSet, raw: seq<Member>) returns (groups: map<int, seq<Member>>, order: seq<int>)
      requires forall m | m in raw :: m in z
      ensures IsGrouping(groups, order, z, raw)
    {
      groups, order := map[], [];
      for i := 0 to |raw|
        invariant IsGrouping(groups, order, z, raw[..i])
      {
        groups, order := AppendToGroup(z, groups, order, raw[..i], raw[i]);
        assert raw[..i] + [raw[i]] == raw[..i + 1];
      }
      assert raw[..|raw|] == raw;
    }

    static method AppendToGroup(z: ZSet, groups: map<int, seq<Member>>, order: seq<int>, ghost listed: seq<Member>,
        m: Member)
      returns (groups': map<int, seq<Member>>, order': seq<int>)
      requires IsGrouping(groups, order, z, listed) && m in z
      ensures IsGrouping(groups', order', z, listed + [m])
    {
      var t := z[m];
      groups' := groups[t := Group(groups, t) + [m]];
      order' := if t in groups then order else order + [t];
      assert (listed + [m])[..|listed|] == listed;
    }

    method DropRepeats(key: Key, groups: map<int, seq<Member>>, order: seq<int>) returns (removed: nat)
      requires forall i | 0 <= i < |order| :: order[i] in groups && groups[order[i]] != []
      modifies this
      ensures Without(Get(key), old(Get(key)), Dropped(groups, order))
      ensures removed == TotalLength(groups, order) - |order|
      ensures forall k | k != key :: Get(k) == old(Get(k))
    {
      removed := 0;
      for i := 0 to |order|
        invariant Without(Get(key), old(Get(key)), Dropped(groups, order[..i]))
        invariant removed == TotalLength(groups, order[..i]) - i
        invariant forall k | k != key :: Get(k) == old(Get(k))
      {
        var t := order[i];
        assert order[..i + 1] == order[..i] + [t];
        DroppedMore(groups, order[..i], t);
        RemoveAll(key, Repeats(groups, t));
        removed := removed + |groups[t]| - 1;
      }
      assert order[..|order|] == order;
    }

    /** The bounds of ZRANGE 0 -1: every score lies between them. */
    static method Bounds(z: ZSet) returns (lo: int, hi: int)
      ensures forall m | m in z :: lo <= z[m] <= hi
    {
      lo, hi := 0, 0;
      var rest := z.Keys;
      while rest != {}
        invariant rest <= z.Keys
        invariant forall m | m in z && m !in rest :: lo <= z[m] <= hi
        decreases |rest|
      {
        var m :| m in rest;
        rest := rest - {m};
        if z[m] < lo { lo := z[m]; }
        if z[m] > hi { hi := z[m]; }
      }
    }

    /** deduplicate_klines of the preload script: rewrite the whole key with the last member of each score. */
    method DedupAll(key: Key) returns (duplicates: nat, ghost lo: int, ghost hi: int, ghost listed: seq<Member>)
      modifies this
      ensures Lists(listed, old(Get(key)), lo, hi)
      ensures forall t | WithScore(old(Get(key)), listed, t) != [] ::
        At(Get(key), t) == {LastOf(WithScore(old(Get(key)), listed, t))}
      ensures forall m | m in old(Get(key)) :: lo <= old(Get(key))[m] <= hi
      ensures Deduplicated(old(Get(key)), Get(key), lo, hi)
      ensures duplicates == |Window(old(Get(key)), lo, hi)| - |WindowScores(old(Get(key)), lo, hi)|
      ensures forall k | k != key :: Get(k) == old(Get(k))
    {
      var low, high := Bounds(Get(key));
      var raw := RangeByScore(key, low, high);
      assert forall m | m in raw :: InRange(Get(key), m, low, high);
      var groups, order := GroupByScore(Get(key), raw);
      EveryMemberInOneGroup(groups, order, Get(key), raw, raw);
      WindowCounts(groups, order, Get(key), raw, low, high);
      GroupsNotEmpty(groups, order);
      duplicates := |raw| - |order|;   // the sum of len(values) - 1
      lo, hi, listed := low, high, raw;
      if duplicates == 0 {
        FirstOfEachGroup(groups, order, Get(key), raw, low, high, Get(key));
        FirstsSurvive(groups, order, Get(key), raw, low, high, Get(key));
        FirstsAreLasts(groups, order, Get(key), raw);
      } else {
        Rewrite(key, groups, order);
        LastOfEachGroup(groups, order, old(Get(key)), raw, low, high, Get(key));
      }
    }

    method Rewrite(key: Key, groups: map<int, seq<Member>>, order: seq<int>)
      requires forall t | t in order :: t in groups && groups[t] != []
      modifies this
      ensures forall m | m in Get(key) :: exists t :: IsLast(groups, order, t, m) && Get(key)[m] == t
      ensures forall t | t in order :: Last(groups, t) in Get(key)
      ensures forall k | k != key :: Get(k) == old(Get(k))
    {
      zsets := zsets[key := map[]];
      for i := 0 to |order|
        invariant forall m | m in Get(key) :: exists t :: IsLast(groups, order, t, m) && Get(key)[m] == t
        invariant forall j | 0 <= j < i :: Last(groups, order[j]) in Get(key)
        invariant forall k | k != key :: Get(k) == old(Get(k))
      {
        var t := order[i];
        assert t in order;
        assert IsLast(groups, order, t, Last(groups, t));
        Add(key, t, groups[t][|groups[t]| - 1]);
      }
    }

    /** write_klines_pipeline: the upsert in chunks of 500 candles. */
    method WriteKlines(key: Key, ks: seq<Kline>) returns (count: nat)
      modifies this
      ensures Get(key) == UpsertAll(old(Get(key)), ks) && count == |ks|
      ensures forall k | k != key :: Get(k) == old(Get(k))
    {
      var i := 0;
      while i < |ks|
        invariant 0 <= i <= |ks| && Get(key) == UpsertAll(old(Get(key)), ks[..i])
        invariant forall k | k != key :: Get(k) == old(Get(k))
      {
        var chunkEnd := if i + CHUNK <= |ks| then i + CHUNK else |ks|;
        var _ := LuaUpsert(key, ks[i..chunkEnd]);
        UpsertAllAppend(old(Get(key)), ks[..i], ks[i..chunkEnd]);
        assert ks[..i] + ks[i..chunkEnd] == ks[..chunkEnd];
        i := chunkEnd;
      }
      assert ks[..|ks|] == ks;
      count := |ks|;
    }
  }

  const CHUNK := 500

  ghost function Members(ms: seq<Member>): set<Member> {
    set m | m in ms
  }

  lemma UpsertByRemoval(z: ZSet, score: int, existing: seq<Member>, now: ZSet, value: Member)
    requires Lists(existing, z, score, score) && Without(now, z, Members(existing))
    ensures now[value := score] == Upsert(z, score, value)
  {
    forall m ensures m in Members(existing) <==> m in z && z[m] == score {
      assert m in existing <==> InRange(z, m, score, score);
    }
    assert now == map m | m in z && z[m] != score :: z[m];
  }

  // ---------------------------------------------------------------------------------------------
  // Duplicates
  // ---------------------------------------------------------------------------------------------

  /** What dedup does to [lo, hi]: nothing is added or moved, and every score keeps exactly one member. */
  ghost predicate Deduplicated(before: ZSet, after: ZSet, lo: int, hi: int) {
    && after.Keys <= before.Keys
    && (forall m | m in after :: after[m] == before[m])
    && (forall m | m in before && !(lo <= before[m] <= hi) :: m in after)
    && (forall m | InRange(before, m, lo, hi) :: Single(after, before[m]))
  }

  /** defaultdict(list) */
  function Group(groups: map<int, seq<Member>>, t: int): seq<Member> {
    if t in groups then groups[t] else []
  }

  /** The listed members with score `t`, in the order listed. */
  ghost function WithScore(z: ZSet, listed: seq<Member>, t: int): seq<Member> {
    if listed == [] then []
    else
      var front, m := WithScore(z, listed[..|listed| - 1], t), listed[|listed| - 1];
      if m in z && z[m] == t then front + [m] else front
  }

  lemma {:induction false} WithScoreMeaning(z: ZSet, listed: seq<Member>, t: int)
    ensures forall m :: m in WithScore(z, listed, t) <==> m in listed && m in z && z[m] == t
  {
    if listed != [] {
      WithScoreMeaning(z, listed[..|listed| - 1], t);
      assert listed == listed[..|listed| - 1] + [listed[|listed| - 1]];
    }
  }

  lemma {:induction false} WithScoreFirst(z: ZSet, listed: seq<Member>, t: int)
    requires forall i, j | 0 <= i < j < |listed| :: listed[i] != listed[j]
    ensures WithScore(z, listed, t) != [] ==> WithScore(z, listed, t)[0] !in WithScore(z, listed, t)[1..]
  {
    if listed != [] {
      WithScoreFirst(z, listed[..|listed| - 1], t);
      WithScoreMeaning(z, listed[..|listed| - 1], t);
    }
  }

  /** `groups` maps each score of the listed members to the members that have it; `order` lists the scores. */
  ghost predicate IsGrouping(groups: map<int, seq<Member>>, order: seq<int>, z: ZSet, listed: seq<Member>) {
    && (forall t :: Group(groups, t) == WithScore(z, listed, t))
    && (forall t | t in groups :: groups[t] != [])
    && (forall t :: t in order <==> t in groups)
    && (forall i, j | 0 <= i < j < |order| :: order[i] != order[j])
  }

  /** All but the first member of a group. */
  function Repeats(groups: map<int, seq<Member>>, t: int): seq<Member> {
    var g := Group(groups, t);
    if g == [] then [] else g[1..]
  }

  ghost function Dropped(groups: map<int, seq<Member>>, scores: seq<int>): set<Member> {
    set t, m | t in scores && m in Repeats(groups, t) :: m
  }

  ghost function TotalLength(groups: map<int, seq<Member>>, scores: seq<int>): nat {
    if scores == [] then 0
    else TotalLength(groups, scores[..|scores| - 1]) + |Group(groups, scores[|scores| - 1])|
  }

  /** Every listed member is in exactly one group. */
  lemma {:induction false} EveryMemberInOneGroup(groups: map<int, seq<Member>>, order: seq<int>, z: ZSet,
      raw: seq<Member>, part: seq<Member>)
    requires IsGrouping(groups, order, z, raw) && forall m | m in raw :: m in z
    requires part <= raw
    ensures Total(z, part, order) == |part|
    ensures part == raw ==> TotalLength(groups, order) == |raw|
  {
    if part == raw { SameTotal(groups, order, z, raw); }
    if part == [] {
      NothingListed(z, order);
    } else {
      var front, m := part[..|part| - 1], part[|part| - 1];
      EveryMemberInOneGroup(groups, order, z, raw, front);
      assert m in raw;
      WithScoreMeaning(z, raw, z[m]);
      var k :| 0 <= k < |order| && order[k] == z[m];
      OneMore(z, part, order, k);
    }
  }

  ghost function Total(z: ZSet, listed: seq<Member>, scores: seq<int>): nat {
    if scores == [] then 0
    else Total(z, listed, scores[..|scores| - 1]) + |WithScore(z, listed, scores[|scores| - 1])|
  }

  lemma {:induction false} SameTotal(groups: map<int, seq<Member>>, scores: seq<int>, z: ZSet, raw: seq<Member>)
    requires forall t :: Group(groups, t) == WithScore(z, raw, t)
    ensures TotalLength(groups, scores) == Total(z, raw, scores)
  {
    if scores != [] { SameTotal(groups, scores[..|scores| - 1], z, raw); }
  }

  lemma {:induction false} NothingListed(z: ZSet, scores: seq<int>)
    ensures Total(z, [], scores) == 0
  {
    if scores != [] { NothingListed(z, scores[..|scores| - 1]); }
  }

  lemma {:induction false} OtherScores(z: ZSet, listed: seq<Member>, scores: seq<int>)
    requires listed != [] && listed[|listed| - 1] in z && z[listed[|listed| - 1]] !in scores
    ensures Total(z, listed, scores) == Total(z, listed[..|listed| - 1], scores)
  {
    if scores != [] { OtherScores(z, listed, scores[..|scores| - 1]); }
  }

  lemma {:induction false} OneMore(z: ZSet, listed: seq<Member>, scores: seq<int>, k: nat)
    requires listed != [] && listed[|listed| - 1] in z && k < |scores| && scores[k] == z[listed[|listed| - 1]]
    requires forall i, j | 0 <= i < j < |scores| :: scores[i] != scores[j]
    ensures Total(z, listed, scores) == Total(z, listed[..|listed| - 1], scores) + 1
  {
    if k == |scores| - 1 { OtherScores(z, listed, scores[..k]); }
    else { OneMore(z, listed, scores[..|scores| - 1], k); }
  }

  lemma DroppedMore(groups: map<int, seq<Member>>, done: seq<int>, t: int)
    ensures Dropped(groups, done + [t]) == Dropped(groups, done) + Members(Repeats(groups, t))
  {
  }

  lemma FirstOfEachGroup(groups: map<int, seq<Member>>, order: seq<int>, z: ZSet, raw: seq<Member>, lo: int, hi: int,
      after: ZSet)
    requires Lists(raw, z, lo, hi) && IsGrouping(groups, order, z, raw)
    requires Without(after, z, Dropped(groups, order))
    ensures Deduplicated(z, after, lo, hi)
  {
    forall m | InRange(z, m, lo, hi)
      ensures Single(after, z[m])
    {
      assert m in raw;
      WithScoreMeaning(z, raw, z[m]);
      FirstSurvives(groups, order, z, raw, lo, hi, after, z[m]);
    }
    forall m | m in z && !(lo <= z[m] <= hi) ensures m in after {
      if m in Dropped(groups, order) {
        var t :| t in order && m in Repeats(groups, t);
        WithScoreMeaning(z, raw, t);
      }
    }
  }

  lemma FirstsSurvive(groups: map<int, seq<Member>>, order: seq<int>, z: ZSet, raw: seq<Member>, lo: int, hi: int,
      after: ZSet)
    requires Lists(raw, z, lo, hi) && IsGrouping(groups, order, z, raw)
    requires Without(after, z, Dropped(groups, order))
    ensures forall t | WithScore(z, raw, t) != [] :: At(after, t) == {WithScore(z, raw, t)[0]}
  {
    forall t | WithScore(z, raw, t) != [] ensures At(after, t) == {WithScore(z, raw, t)[0]} {
      WithScoreMeaning(z, raw, t);
      var m := WithScore(z, raw, t)[0];
      assert m in WithScore(z, raw, t) && InRange(z, m, lo, hi);
      assert Group(groups, t) == WithScore(z, raw, t);
      FirstSurvives(groups, order, z, raw, lo, hi, after, t);
    }
  }

  lemma FirstSurvives(groups: map<int, seq<Member>>, order: seq<int>, z: ZSet, raw: seq<Member>, lo: int, hi: int,
      after: ZSet, t: int)
    requires Lists(raw, z, lo, hi) && IsGrouping(groups, order, z, raw) && lo <= t <= hi && Group(groups, t) != []
    requires Without(after, z, Dropped(groups, order))
    ensures At(after, t) == {Group(groups, t)[0]}
  {
    var g := Group(groups, t);
    WithScoreMeaning(z, raw, t);
    WithScoreFirst(z, raw, t);
    forall n | n in At(after, t) ensures n == g[0] {
      assert InRange(z, n, lo, hi);
      assert n in raw && n in g;
      assert n !in Repeats(groups, t);
    }
    assert g[0] in g;
    if g[0] in Dropped(groups, order) {
      var t' :| t' in order && g[0] in Repeats(groups, t');
      WithScoreMeaning(z, raw, t');
    }
  }

  /** The members listed in a window, and their scores. */
  ghost function Window(z: ZSet, lo: int, hi: int): set<Member> {
    set m | m in z && lo <= z[m] <= hi
  }

  ghost function WindowScores(z: ZSet, lo: int, hi: int): set<int> {
    set m | m in z && lo <= z[m] <= hi :: z[m]
  }

  lemma {:induction false} DistinctCount<T>(s: seq<T>)
    requires forall i, j | 0 <= i < j < |s| :: s[i] != s[j]
    ensures |set x | x in s| == |s|
  {
    if s != [] {
      var front := s[..|s| - 1];
      DistinctCount(front);
      assert (set x | x in s) == (set x | x in front) + {s[|s| - 1]};
    }
  }

  lemma WindowCounts(groups: map<int, seq<Member>>, order: seq<int>, z: ZSet, raw: seq<Member>, lo: int, hi: int)
    requires Lists(raw, z, lo, hi) && IsGrouping(groups, order, z, raw)
    ensures |Window(z, lo, hi)| == |raw| && |WindowScores(z, lo, hi)| == |order|
  {
    DistinctCount(raw);
    DistinctCount(order);
    assert forall m :: m in raw <==> InRange(z, m, lo, hi);
    assert (set m | m in raw) == Window(z, lo, hi);
    OrderIsWindowScores(groups, order, z, raw, lo, hi);
  }

  lemma OrderIsWindowScores(groups: map<int, seq<Member>>, order: seq<int>, z: ZSet, raw: seq<Member>, lo: int, hi: int)
    requires Lists(raw, z, lo, hi) && IsGrouping(groups, order, z, raw)
    ensures (set t | t in order) == WindowScores(z, lo, hi)
  {
    forall t ensures t in order <==> t in WindowScores(z, lo, hi) {
      WithScoreMeaning(z, raw, t);
      if t in order {
        assert Group(groups, t)[0] in Group(groups, t);
        assert InRange(z, Group(groups, t)[0], lo, hi);
      }
      if t in WindowScores(z, lo, hi) {
        var m :| m in z && lo <= z[m] <= hi && z[m] == t;
        assert InRange(z, m, lo, hi);
      }
    }
  }

  /** The member of a score that the preload script keeps. */
  ghost function Last(groups: map<int, seq<Member>>, t: int): Member
    requires t in groups && groups[t] != []
  {
    groups[t][|groups[t]| - 1]
  }

  ghost predicate IsLast(groups: map<int, seq<Member>>, order: seq<int>, t: int, m: Member) {
    t in order && t in groups && groups[t] != [] && m == Last(groups, t)
  }

  function LastOf(ms: seq<Member>): Member
    requires ms != []
  {
    ms[|ms| - 1]
  }

  lemma LastSurvives(groups: map<int, seq<Member>>, order: seq<int>, z: ZSet, raw: seq<Member>, after: ZSet, t: int)
    requires IsGrouping(groups, order, z, raw) && WithScore(z, raw, t) != []
    requires forall m | m in after :: exists t :: IsLast(groups, order, t, m) && after[m] == t
    requires forall t | t in order :: Last(groups, t) in after
    ensures At(after, t) == {LastOf(WithScore(z, raw, t))}
  {
    assert Group(groups, t) == WithScore(z, raw, t);
    assert t in order;
    var last := Last(groups, t);
    var u :| IsLast(groups, order, u, last) && after[last] == u;
    WithScoreMeaning(z, raw, t);
    WithScoreMeaning(z, raw, u);
    assert last in WithScore(z, raw, t) && last in Group(groups, u);
  }

  lemma NoMembersIsEmpty(ms: seq<Member>)
    ensures (forall m :: m !in ms) ==> ms == []
  {
    if ms != [] { assert ms[0] in ms; }
  }

  /** Without repeats the first and the last member of a score are the same. */
  lemma FirstsAreLasts(groups: map<int, seq<Member>>, order: seq<int>, z: ZSet, raw: seq<Member>)
    requires IsGrouping(groups, order, z, raw) && Dropped(groups, order) == {}
    ensures forall t | WithScore(z, raw, t) != [] :: WithScore(z, raw, t)[0] == LastOf(WithScore(z, raw, t))
  {
    forall t | WithScore(z, raw, t) != [] ensures WithScore(z, raw, t)[0] == LastOf(WithScore(z, raw, t)) {
      assert Group(groups, t) == WithScore(z, raw, t);
      forall m ensures m !in Repeats(groups, t) {
        assert t in order && m in Repeats(groups, t) ==> m in Dropped(groups, order);
      }
      NoMembersIsEmpty(Repeats(groups, t));
    }
  }

  lemma LastOfEachGroup(groups: map<int, seq<Member>>, order: seq<int>, z: ZSet, raw: seq<Member>, lo: int, hi: int,
      after: ZSet)
    requires Lists(raw, z, lo, hi) && IsGrouping(groups, order, z, raw) && forall m | m in z :: lo <= z[m] <= hi
    requires forall m | m in after :: exists t :: IsLast(groups, order, t, m) && after[m] == t
    requires forall t | t in order :: Last(groups, t) in after
    ensures Deduplicated(z, after, lo, hi)
    ensures forall t | WithScore(z, raw, t) != [] :: At(after, t) == {LastOf(WithScore(z, raw, t))}
  {
    forall t | WithScore(z, raw, t) != [] ensures At(after, t) == {LastOf(WithScore(z, raw, t))} {
      LastSurvives(groups, order, z, raw, after, t);
    }
    forall m | m in after ensures m in z && after[m] == z[m] {
      var t :| IsLast(groups, order, t, m) && after[m] == t;
      WithScoreMeaning(z, raw, t);
    }
    forall m | InRange(z, m, lo, hi)
      ensures Single(after, z[m])
    {
      assert m in raw;
      WithScoreMeaning(z, raw, z[m]);
      LastSurvives(groups, order, z, raw, after, z[m]);
    }
  }

  /** No group is empty, and if there are as many members as groups, each group has one member. */
  lemma {:induction false} GroupsNotEmpty(groups: map<int, seq<Member>>, scores: seq<int>)
    requires forall t | t in scores :: t in groups && groups[t] != []
    ensures TotalLength(groups, scores) >= |scores|
    ensures TotalLength(groups, scores) == |scores| ==> Dropped(groups, scores) == {}
  {
    if scores != [] {
      var front, t := scores[..|scores| - 1], scores[|scores| - 1];
      GroupsNotEmpty(groups, front);
      assert scores == front + [t];
      DroppedMore(groups, front, t);
    }
  }

  // ---------------------------------------------------------------------------------------------
  // What follows from Deduplicated
  // ---------------------------------------------------------------------------------------------

  /** No timestamp is lost. */
  lemma DedupKeepsScores(before: ZSet, after: ZSet, lo: int, hi: int)
    requires Deduplicated(before, after, lo, hi)
    ensures Scores(after) == Scores(before)
  {
    forall t | t in Scores(before) ensures t in Scores(after) {
      var m :| m in before && before[m] == t;
      if lo <= t <= hi {
        var n :| At(after, t) == {n};
        assert n in At(after, t);
      } else {
        assert m in after;
      }
    }
  }

  /** A second run changes nothing. */
  lemma DedupIdempotent(first: ZSet, second: ZSet, third: ZSet, lo: int, hi: int)
    requires Deduplicated(first, second, lo, hi) && Deduplicated(second, third, lo, hi)
    ensures third == second
  {
    forall m | m in second ensures m in third {
      if InRange(second, m, lo, hi) {
        assert InRange(first, m, lo, hi);
        var n :| At(second, second[m]) == {n};
        var n' :| At(third, second[m]) == {n'};
        assert m in At(second, second[m]) && n' in At(third, second[m]);
        assert n' in At(second, second[m]);
      }
    }
  }
}
