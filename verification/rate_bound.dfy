/** How many events the limiter lets through in a stretch of time. */
module RateBound {
  import opened ByteStrings
  import opened LruCache
  import opened WriteController

  /** The record of a key in a limiter that never forgets. */
  ghost function KeyRecord(calls: seq<Call>, k: Key): Record {
    if calls == [] then FRESH
    else
      var before, c := KeyRecord(calls[..|calls| - 1], k), calls[|calls| - 1];
      if c.key == k then Counted(before, c) else before
  }

  /** At no call of `k` is it forgotten. */
  ghost predicate NeverForgotten(calls: seq<Call>, k: Key) {
    forall n :: 0 <= n < |calls| && calls[n].key == k ==>
      Last(KeyLog(calls[..n]), k) < 0 || !Forgotten(calls[..n], k)
  }

  /** All calls of `k` use one period and threshold, times are non-zero and never go back, and
      neither the 64-bit sum of the cycle test nor the counter wraps around. */
  ghost predicate Steady(calls: seq<Call>, k: Key, period: U64, threshold: U64) {
    && |calls| < TWO_TO_THE_64
    && (forall c <- calls :: c.key == k ==>
          c.period == period && c.threshold == threshold && c.time != 0
          && Sec(c.time) + period < TWO_TO_THE_64)
    && (forall i, j :: 0 <= i < j < |calls| && calls[i].key == k && calls[j].key == k
          ==> calls[i].time <= calls[j].time)
  }

  /** The number of calls of `k` that the limiter accepted with a time in seconds `from` to `to`. */
  ghost function AcceptedWithin(calls: seq<Call>, k: Key, from: nat, to: nat): nat {
    if calls == [] then 0
    else
      var c := calls[|calls| - 1];
      AcceptedWithin(calls[..|calls| - 1], k, from, to)
      + (if c.key == k && from <= Sec(c.time) <= to && CachedVerdict(calls) != INVALID_TIME_STAMP then 1 else 0)
  }

  /** Accepted calls of `k` in that stretch of time that belong to an earlier cycle than the
      current one, and those of the current one. */
  ghost function Tally(calls: seq<Call>, k: Key, from: nat, to: nat): (nat, nat) {
    if calls == [] then (0, 0)
    else
      var c, before := calls[|calls| - 1], calls[..|calls| - 1];
      var (earlier, current) := Tally(before, k, from, to);
      var inside := from <= Sec(c.time) <= to;
      if c.key != k then (earlier, current)
      else if NewCycle(KeyRecord(before, k), c) then (earlier + current, if inside then 1 else 0)
      else (earlier, current + (if inside && Accepts(KeyRecord(before, k), c) then 1 else 0))
  }

  /** The number of calls of `k` that the limiter accepted since its current cycle began. */
  ghost function AcceptedInCycle(calls: seq<Call>, k: Key): nat {
    if calls == [] then 0
    else
      var c, before := calls[|calls| - 1], calls[..|calls| - 1];
      if c.key != k then AcceptedInCycle(before, k)
      else
        (if NewCycle(KeyRecord(before, k), c) then 0 else AcceptedInCycle(before, k))
        + (if CachedVerdict(calls) != INVALID_TIME_STAMP then 1 else 0)
  }

  function CycleLimit(threshold: U64): nat {
    if threshold == 0 then 1 else threshold
  }

  function Min(a: nat, b: nat): nat {
    if a < b then a else b
  }

  lemma {:induction false} SteadyPrefix(calls: seq<Call>, k: Key, period: U64, threshold: U64)
    requires calls != [] && Steady(calls, k, period, threshold)
    ensures Steady(calls[..|calls| - 1], k, period, threshold)
  {
  }

  /** A key that is never forgotten is limited as if there were no cache. */
  lemma {:induction false} KeyRecordIsIdeal(calls: seq<Call>, k: Key)
    requires NeverForgotten(calls, k)
    ensures Last(KeyLog(calls), k) >= 0 ==> KeyRecord(calls, k) == LeftRecord(calls, k)
    ensures Last(KeyLog(calls), k) < 0 ==> KeyRecord(calls, k) == FRESH
  {
    hide LeftRecord, IdealRecord, Forgotten, Last, Counted;
    if calls == [] {
      assert Last(KeyLog(calls), k) < 0;
    } else {
      var before, c := calls[..|calls| - 1], calls[|calls| - 1];
      NeverForgottenBefore(calls, k);
      KeyRecordIsIdeal(before, k);
      IdealOrLeft(before, k);
      assert calls == before + [c];
      assert KeyLog(calls) == KeyLog(before) + [c.key];
      LastAppend(KeyLog(before), c.key, k);
      if k == c.key || Last(KeyLog(before), k) >= 0 {
        LeftRecordStep(before, c, k);
      }
    }
  }

  lemma {:induction false} NeverForgottenBefore(calls: seq<Call>, k: Key)
    requires calls != [] && NeverForgotten(calls, k)
    ensures var before := calls[..|calls| - 1];
            && NeverForgotten(before, k)
            && (calls[|calls| - 1].key == k ==> Last(KeyLog(before), k) < 0 || !Forgotten(before, k))
  {
    var before := calls[..|calls| - 1];
    assert forall n :: 0 <= n < |before| ==> calls[..n] == before[..n] && calls[n] == before[n];
  }

  lemma {:induction false} IdealOrLeft(calls: seq<Call>, k: Key)
    ensures Last(KeyLog(calls), k) < 0 ==> IdealRecord(calls, k) == FRESH
    ensures Last(KeyLog(calls), k) >= 0 && !Forgotten(calls, k) ==> IdealRecord(calls, k) == LeftRecord(calls, k)
  {
  }

  lemma {:induction false} VerdictOfKey(calls: seq<Call>, c: Call)
    requires NeverForgotten(calls + [c], c.key)
    ensures NeverForgotten(calls, c.key)
    ensures CachedVerdict(calls + [c]) == Verdict(KeyRecord(calls, c.key), c)
  {
    hide LeftRecord, IdealRecord, Forgotten, Last;
    assert (calls + [c])[..|calls|] == calls;
    NeverForgottenBefore(calls + [c], c.key);
    IdealOrLeft(calls, c.key);
    KeyRecordIsIdeal(calls, c.key);
    CacheRefinesIdeal(calls, c);
  }

  lemma {:induction false} TallyIsAccepted(calls: seq<Call>, k: Key, from: nat, to: nat)
    requires NeverForgotten(calls, k) && forall c <- calls :: c.key == k ==> c.time != 0
    ensures var (earlier, current) := Tally(calls, k, from, to);
            AcceptedWithin(calls, k, from, to) == earlier + current
  {
    hide CachedVerdict, NeverForgotten, NewCycle, KeyRecord;
    if calls != [] {
      var before, c := calls[..|calls| - 1], calls[|calls| - 1];
      assert calls == before + [c];
      assert c in calls && forall b <- before :: b in calls;
      NeverForgottenBefore(calls, k);
      TallyIsAccepted(before, k, from, to);
      if c.key == k {
        VerdictOfKey(before, c);
      }
    }
  }

  /** The count of a cycle starts at one; a cycle lies at the time of one of the calls. */
  lemma {:induction false} RecordFacts(calls: seq<Call>, k: Key, period: U64, threshold: U64)
    requires Steady(calls, k, period, threshold)
    ensures KeyRecord(calls, k).count <= |calls|
    ensures KeyRecord(calls, k).count > 0 ==>
              exists i :: 0 <= i < |calls| && calls[i].key == k && calls[i].time == KeyRecord(calls, k).timestamp
  {
    if calls != [] {
      var before, c := calls[..|calls| - 1], calls[|calls| - 1];
      SteadyPrefix(calls, k, period, threshold);
      RecordFacts(before, k, period, threshold);
      assert c in calls;
      if KeyRecord(before, k).count > 0 {
        var i :| 0 <= i < |before| && before[i].key == k && before[i].time == KeyRecord(before, k).timestamp;
        assert calls[i].key == k && calls[i].time == KeyRecord(before, k).timestamp;
      }
      if c.key == k {
        assert calls[|before|].time == c.time;
        if !NewCycle(KeyRecord(before, k), c) {
          DivModUnique(KeyRecord(before, k).count + 1, TWO_TO_THE_64, 0, KeyRecord(before, k).count + 1);
        }
      }
    }
  }

  lemma {:induction false} CountOfCall(r: Record, c: Call, accepted: nat)
    requires r.count + 1 < TWO_TO_THE_64 && c.time != 0
    requires accepted == Min(r.count, CycleLimit(c.threshold))
    ensures (if NewCycle(r, c) then 0 else accepted) + (if Verdict(r, c) != INVALID_TIME_STAMP then 1 else 0)
            == Min(Counted(r, c).count, CycleLimit(c.threshold))
  {
    DivModUnique(r.count + 1, TWO_TO_THE_64, 0, r.count + 1);
  }

  /** The count of a cycle goes on when calls are discarded. */
  lemma {:induction false} AcceptedIsCount(calls: seq<Call>, k: Key, period: U64, threshold: U64)
    requires NeverForgotten(calls, k) && Steady(calls, k, period, threshold)
    ensures AcceptedInCycle(calls, k) == Min(KeyRecord(calls, k).count, CycleLimit(threshold))
  {
    hide CachedVerdict, NeverForgotten, NewCycle, Counted, Verdict;
    if calls != [] {
      var before, c := calls[..|calls| - 1], calls[|calls| - 1];
      assert calls == before + [c] && c in calls;
      SteadyPrefix(calls, k, period, threshold);
      NeverForgottenBefore(calls, k);
      AcceptedIsCount(before, k, period, threshold);
      if c.key == k {
        VerdictOfKey(before, c);
        RecordFacts(before, k, period, threshold);
        CountOfCall(KeyRecord(before, k), c, AcceptedInCycle(before, k));
      }
    }
  }

  /** A cycle accepts at most max(1, threshold) events, and the limiter discards an event if and
      only if its cycle goes on and has accepted that many. */
  lemma {:induction false} CycleBound(calls: seq<Call>, c: Call, period: U64, threshold: U64)
    requires NeverForgotten(calls + [c], c.key) && Steady(calls + [c], c.key, period, threshold)
    ensures AcceptedInCycle(calls, c.key) <= CycleLimit(threshold)
    ensures CachedVerdict(calls + [c]) == INVALID_TIME_STAMP <==>
            !NewCycle(KeyRecord(calls, c.key), c) && AcceptedInCycle(calls, c.key) == CycleLimit(threshold)
  {
    hide CachedVerdict, NeverForgotten, AcceptedInCycle;
    var all := calls + [c];
    SteadyPrefix(all, c.key, period, threshold);
    assert all[..|calls|] == calls && c in all;
    VerdictOfKey(calls, c);
    AcceptedIsCount(calls, c.key, period, threshold);
    RecordFacts(calls, c.key, period, threshold);
    var n := KeyRecord(calls, c.key).count;
    DivModUnique(n + 1, TWO_TO_THE_64, 0, n + 1);
  }

  /** Where the accepted calls of the stretch lie, relative to the start of the current cycle. */
  ghost predicate Placed(r: Record, tally: (nat, nat), from: nat, period: U64, limit: nat) {
    var (earlier, current) := tally;
    var start := Sec(r.timestamp);
    && earlier + current <= 2 * limit - 1
    && (r.count == 0 ==> earlier + current == 0)
    && (r.count > 0 ==>
        && current + (if start < from then 1 else 0) <= Min(r.count, limit)
        && (start <= from ==> earlier == 0)
        && (from < start <= from + period ==> earlier <= limit - 1)
        && (start + period < from ==> current == 0)
        && (from + period < start ==> current == 0))
  }

  lemma {:induction false} PlacedStep(r: Record, tally: (nat, nat), c: Call, from: nat, limit: nat)
    requires limit == CycleLimit(c.threshold)
    requires Placed(r, tally, from, c.period, limit)
    requires r.count + 1 < TWO_TO_THE_64 && Sec(r.timestamp) + c.period < TWO_TO_THE_64
    requires r.count > 0 ==> Sec(r.timestamp) <= Sec(c.time)
    ensures var inside := from <= Sec(c.time) <= from + c.period;
            var next := if NewCycle(r, c) then (tally.0 + tally.1, if inside then 1 else 0)
                        else (tally.0, tally.1 + (if inside && Accepts(r, c) then 1 else 0));
            Placed(Counted(r, c), next, from, c.period, limit)
  {
    DivModUnique(r.count + 1, TWO_TO_THE_64, 0, r.count + 1);
    DivModUnique(Sec(r.timestamp) + c.period, TWO_TO_THE_64, 0, Sec(r.timestamp) + c.period);
  }

  lemma {:induction false} PlacedAlways(calls: seq<Call>, k: Key, period: U64, threshold: U64, from: nat)
    requires Steady(calls, k, period, threshold)
    ensures Placed(KeyRecord(calls, k), Tally(calls, k, from, from + period), from, period, CycleLimit(threshold))
  {
    hide Placed, NewCycle, Accepts, Counted;
    if calls == [] {
      assert Placed(FRESH, (0, 0), from, period, CycleLimit(threshold)) by { PlacedAtStart(from, period, threshold); }
    } else {
      var before, c := calls[..|calls| - 1], calls[|calls| - 1];
      SteadyPrefix(calls, k, period, threshold);
      PlacedAlways(before, k, period, threshold, from);
      if c.key == k {
        var r := KeyRecord(before, k);
        RecordInTime(calls, period, threshold);
        PlacedStep(r, Tally(before, k, from, from + period), c, from, CycleLimit(threshold));
      }
    }
  }

  /** The record before the last call: its cycle started no later, and no sum wraps around. */
  lemma {:induction false} RecordInTime(calls: seq<Call>, period: U64, threshold: U64)
    requires calls != [] && Steady(calls, calls[|calls| - 1].key, period, threshold)
    ensures var c := calls[|calls| - 1];
            var r := KeyRecord(calls[..|calls| - 1], c.key);
            && c.period == period && c.threshold == threshold
            && r.count + 1 < TWO_TO_THE_64 && Sec(r.timestamp) + period < TWO_TO_THE_64
            && (r.count > 0 ==> Sec(r.timestamp) <= Sec(c.time))
  {
    var before, c := calls[..|calls| - 1], calls[|calls| - 1];
    var k := c.key;
    var r := KeyRecord(before, k);
    assert c in calls;
    SteadyPrefix(calls, k, period, threshold);
    RecordFacts(before, k, period, threshold);
    if r.count > 0 {
      var i :| 0 <= i < |before| && before[i].key == k && before[i].time == r.timestamp;
      assert calls[i] == before[i] && calls[i].time <= calls[|before|].time;
    } else {
      EmptyRecordIsFresh(before, k, period, threshold);
    }
  }

  lemma {:induction false} PlacedAtStart(from: nat, period: U64, threshold: U64)
    ensures Placed(FRESH, (0, 0), from, period, CycleLimit(threshold))
  {
  }

  lemma {:induction false} EmptyRecordIsFresh(calls: seq<Call>, k: Key, period: U64, threshold: U64)
    requires Steady(calls, k, period, threshold)
    ensures KeyRecord(calls, k).count == 0 ==> KeyRecord(calls, k) == FRESH
  {
    if calls != [] {
      var before := calls[..|calls| - 1];
      SteadyPrefix(calls, k, period, threshold);
      EmptyRecordIsFresh(before, k, period, threshold);
      RecordFacts(before, k, period, threshold);
      var n := KeyRecord(before, k).count;
      DivModUnique(n + 1, TWO_TO_THE_64, 0, n + 1);
    }
  }

  /** With a period of zero, a cycle is one second: which one the accepted calls of `from` are in. */
  ghost predicate PlacedInSecond(r: Record, tally: (nat, nat), from: nat, limit: nat) {
    var (earlier, current) := tally;
    var start := Sec(r.timestamp);
    && (r.count == 0 || start < from ==> earlier + current == 0)
    && (r.count > 0 && start == from ==> earlier == 0 && current <= Min(r.count, limit))
    && (r.count > 0 && start > from ==> earlier <= limit && current == 0)
  }

  lemma {:induction false} PlacedInSecondStep(r: Record, tally: (nat, nat), c: Call, from: nat, limit: nat)
    requires limit == CycleLimit(c.threshold) && c.period == 0
    requires PlacedInSecond(r, tally, from, limit)
    requires r.count + 1 < TWO_TO_THE_64
    requires r.count > 0 ==> Sec(r.timestamp) <= Sec(c.time)
    ensures var inside := Sec(c.time) == from;
            var next := if NewCycle(r, c) then (tally.0 + tally.1, if inside then 1 else 0)
                        else (tally.0, tally.1 + (if inside && Accepts(r, c) then 1 else 0));
            PlacedInSecond(Counted(r, c), next, from, limit)
  {
    DivModUnique(r.count + 1, TWO_TO_THE_64, 0, r.count + 1);
    DivModUnique(Sec(r.timestamp), TWO_TO_THE_64, 0, Sec(r.timestamp));
  }

  lemma {:induction false} PlacedInSecondAlways(calls: seq<Call>, k: Key, threshold: U64, from: nat)
    requires Steady(calls, k, 0, threshold)
    ensures PlacedInSecond(KeyRecord(calls, k), Tally(calls, k, from, from), from, CycleLimit(threshold))
  {
    hide PlacedInSecond, NewCycle, Accepts, Counted;
    if calls == [] {
      assert PlacedInSecond(FRESH, (0, 0), from, CycleLimit(threshold)) by { PlacedInSecondAtStart(from, threshold); }
    } else {
      var before, c := calls[..|calls| - 1], calls[|calls| - 1];
      SteadyPrefix(calls, k, 0, threshold);
      PlacedInSecondAlways(before, k, threshold, from);
      if c.key == k {
        RecordInTime(calls, 0, threshold);
        PlacedInSecondStep(KeyRecord(before, k), Tally(before, k, from, from), c, from, CycleLimit(threshold));
      }
    }
  }

  lemma {:induction false} PlacedInSecondAtStart(from: nat, threshold: U64)
    ensures PlacedInSecond(FRESH, (0, 0), from, CycleLimit(threshold))
  {
  }

  /** The most events that P + 1 consecutive whole seconds let through: two cycles can meet in
      them, and the first call of the first one lies before them; with P = 0 only one cycle. */
  function WindowLimit(period: U64, threshold: U64): nat {
    if period == 0 then CycleLimit(threshold) else 2 * CycleLimit(threshold) - 1
  }

  /** For a key that is never forgotten, with a fixed period P and threshold T, any P + 1
      consecutive whole seconds let at most 2 * max(1, T) - 1 of its events through, and a single
      second with P = 0 at most max(1, T). */
  lemma {:induction false} WindowBound(calls: seq<Call>, k: Key, period: U64, threshold: U64, from: nat)
    requires NeverForgotten(calls, k) && Steady(calls, k, period, threshold)
    ensures AcceptedWithin(calls, k, from, from + period) <= WindowLimit(period, threshold)
  {
    hide AcceptedWithin, Tally, KeyRecord, NeverForgotten;
    TallyIsAccepted(calls, k, from, from + period);
    if period == 0 {
      PlacedInSecondAlways(calls, k, threshold, from);
    } else {
      PlacedAlways(calls, k, period, threshold, from);
    }
  }

  lemma {:induction false} OnlyKeyNeverForgotten(calls: seq<Call>, k: Key)
    requires forall c <- calls :: c.key == k
    ensures NeverForgotten(calls, k)
  {
    forall n | 0 <= n < |calls|
      ensures !Forgotten(calls[..n], k)
    {
      var log := KeyLog(calls[..n]);
      assert n > 0 ==> log[n - 1] == k by {
        if n > 0 {
          assert calls[n - 1] in calls;
        }
      }
      assert KeysSince(calls[..n], k) == {};
    }
  }

  lemma {:induction false} OneMore(calls: seq<Call>, c: Call, from: nat, to: nat)
    ensures KeyRecord(calls + [c], c.key) == Counted(KeyRecord(calls, c.key), c)
    ensures var (earlier, current) := Tally(calls, c.key, from, to);
            var inside := from <= Sec(c.time) <= to;
            Tally(calls + [c], c.key, from, to) ==
            if NewCycle(KeyRecord(calls, c.key), c) then (earlier + current, if inside then 1 else 0)
            else (earlier, current + (if inside && Accepts(KeyRecord(calls, c.key), c) then 1 else 0))
  {
    assert (calls + [c])[..|calls|] == calls;
  }

  lemma {:induction false} NoCalls(k: Key, from: nat, to: nat)
    ensures KeyRecord([], k) == FRESH && Tally([], k, from, to) == (0, 0)
  {
  }

  // ---------- the bound is reached

  function Copies(c: Call, n: nat): (r: seq<Call>)
    ensures |r| == n && forall x <- r :: x == c
  {
    seq(n, _ => c)
  }

  lemma {:induction false} OneCopyMore(calls: seq<Call>, c: Call, n: nat)
    ensures calls + Copies(c, n + 1) == calls + Copies(c, n) + [c]
    ensures calls + Copies(c, 0) == calls
  {
  }

  /** Calls in a cycle that goes on and has room: all are accepted. */
  lemma {:induction false} CopiesAccepted(calls: seq<Call>, c: Call, n: nat, from: nat, to: nat)
    requires var r := KeyRecord(calls, c.key);
             r.count > 0 && !NewCycle(r, c) && (n > 0 ==> r.count + n <= c.threshold)
    requires from <= Sec(c.time) <= to
    ensures var r, all := KeyRecord(calls, c.key), calls + Copies(c, n);
            && KeyRecord(all, c.key) == r.(count := r.count + n)
            && Tally(all, c.key, from, to) ==
               (Tally(calls, c.key, from, to).0, Tally(calls, c.key, from, to).1 + n)
  {
    hide KeyRecord, Tally;
    if n == 0 {
      OneCopyMore(calls, c, 0);
    } else {
      CopiesAccepted(calls, c, n - 1, from, to);
      var count := KeyRecord(calls, c.key).count + n;
      DivModUnique(count, TWO_TO_THE_64, 0, count);
      OneCopyMore(calls, c, n - 1);
      OneMore(calls + Copies(c, n - 1), c, from, to);
    }
  }

  /** A call that starts a cycle, and as many of the same as it has room for. */
  lemma {:induction false} FullCycle(calls: seq<Call>, c: Call, from: nat, to: nat)
    requires NewCycle(KeyRecord(calls, c.key), c) && Sec(c.time) + c.period < TWO_TO_THE_64
    requires from <= Sec(c.time) <= to
    ensures var tally := Tally(calls, c.key, from, to);
            Tally(calls + Copies(c, CycleLimit(c.threshold)), c.key, from, to)
            == (tally.0 + tally.1, CycleLimit(c.threshold))
  {
    hide KeyRecord, Tally;
    var n := CycleLimit(c.threshold) - 1;
    OneMore(calls, c, from, to);
    DivModUnique(Sec(c.time) + c.period, TWO_TO_THE_64, 0, Sec(c.time) + c.period);
    CopiesAccepted(calls + [c], c, n, from, to);
    assert calls + [c] + Copies(c, n) == calls + Copies(c, n + 1);
  }

  /** A call one second before the stretch starts a cycle, the rest of that cycle comes at the
      start of the stretch, and a full cycle at its end. */
  function FullHistory(k: Key, period: U64, threshold: U64, from: nat): (r: seq<Call>)
    requires from >= 1 && 1000 * (from + period) + 1 < TWO_TO_THE_64
  {
    var limit := CycleLimit(threshold);
    var last := Copies(Call(k, 1000 * (from + period) + 1, period, threshold), limit);
    if period == 0 then last
    else [Call(k, 1000 * (from - 1) + 1, period, threshold)]
         + Copies(Call(k, 1000 * from + 1, period, threshold), limit - 1) + last
  }

  /** For every period and threshold and every start of the stretch that keeps times and counts in
      64 bits, the bound is reached. */
  lemma {:induction false} WindowBoundReached(k: Key, period: U64, threshold: U64, from: nat)
    requires from >= 1 && 1000 * (from + period) + 1 < TWO_TO_THE_64 && 2 * CycleLimit(threshold) < TWO_TO_THE_64
    ensures var calls := FullHistory(k, period, threshold, from);
            && Steady(calls, k, period, threshold) && NeverForgotten(calls, k)
            && AcceptedWithin(calls, k, from, from + period) == WindowLimit(period, threshold)
  {
    hide AcceptedWithin, NeverForgotten, KeyRecord, Tally, Steady, FullHistory;
    var calls := FullHistory(k, period, threshold, from);
    FullHistorySteady(k, period, threshold, from);
    FullHistoryTally(k, period, threshold, from);
    OnlyKeyNeverForgotten(calls, k);
    TallyIsAccepted(calls, k, from, from + period);
  }

  lemma {:induction false} FullHistorySteady(k: Key, period: U64, threshold: U64, from: nat)
    requires from >= 1 && 1000 * (from + period) + 1 < TWO_TO_THE_64 && 2 * CycleLimit(threshold) < TWO_TO_THE_64
    ensures var calls := FullHistory(k, period, threshold, from);
            Steady(calls, k, period, threshold) && forall c <- calls :: c.key == k && c.time != 0
  {
  }

  lemma {:induction false} FullHistoryTally(k: Key, period: U64, threshold: U64, from: nat)
    requires from >= 1 && 1000 * (from + period) + 1 < TWO_TO_THE_64
    ensures var (earlier, current) := Tally(FullHistory(k, period, threshold, from), k, from, from + period);
            earlier + current == WindowLimit(period, threshold)
  {
    hide KeyRecord, Tally;
    var limit, to := CycleLimit(threshold), from + period;
    var last := Call(k, 1000 * to + 1, period, threshold);
    assert Sec(last.time) == to;
    NoCalls(k, from, to);
    if period == 0 {
      FullCycle([], last, from, to);
      assert [] + Copies(last, limit) == Copies(last, limit);
    } else {
      var c1, c2 := Call(k, 1000 * (from - 1) + 1, period, threshold), Call(k, 1000 * from + 1, period, threshold);
      assert Sec(c1.time) == from - 1 && Sec(c2.time) == from;
      OneMore([], c1, from, to);
      assert [] + [c1] == [c1];
      DivModUnique(from - 1 + period, TWO_TO_THE_64, 0, from - 1 + period);
      CopiesAccepted([c1], c2, limit - 1, from, to);
      FullCycle([c1] + Copies(c2, limit - 1), last, from, to);
    }
  }

  // ---------- sums that wrap around

  /** When the sum of the cycle test wraps around, every call starts a cycle and is accepted. */
  lemma {:induction false} WrapAroundAccepts(c: Call, n: nat)
    requires c.time != 0 && Sec(c.time) + c.period >= TWO_TO_THE_64
    ensures NeverForgotten(Copies(c, n), c.key)
    ensures AcceptedWithin(Copies(c, n), c.key, Sec(c.time), Sec(c.time) + c.period) == n
  {
    hide AcceptedWithin, NeverForgotten, Tally, KeyRecord;
    OnlyKeyNeverForgotten(Copies(c, n), c.key);
    WrapAroundTally(c, n);
    TallyIsAccepted(Copies(c, n), c.key, Sec(c.time), Sec(c.time) + c.period);
  }

  lemma {:induction false} WrapAroundTally(c: Call, n: nat)
    requires Sec(c.time) + c.period >= TWO_TO_THE_64
    ensures var (earlier, current) := Tally(Copies(c, n), c.key, Sec(c.time), Sec(c.time) + c.period);
            earlier + current == n
    ensures KeyRecord(Copies(c, n), c.key) == if n == 0 then FRESH else Record(1, c.time)
  {
    hide Tally, KeyRecord;
    if n == 0 {
      NoCalls(c.key, Sec(c.time), Sec(c.time) + c.period);
      assert Copies(c, 0) == [];
    } else {
      WrapAroundTally(c, n - 1);
      var sum := Sec(c.time) + c.period;
      DivModUnique(sum, TWO_TO_THE_64, 1, sum - TWO_TO_THE_64);
      OneMore(Copies(c, n - 1), c, Sec(c.time), sum);
      assert Copies(c, n - 1) + [c] == Copies(c, n);
    }
  }

  /** Histories of a key with one period and threshold, non-zero times that never go back and end
      by `latest`, and fewer calls than the counter has values. */
  ghost predicate Regular(calls: seq<Call>, k: Key, period: U64, threshold: U64, latest: U64) {
    && |calls| < TWO_TO_THE_64
    && (forall c <- calls :: c.key == k ==>
          c.period == period && c.threshold == threshold && 0 < c.time <= latest)
    && (forall i, j :: 0 <= i < j < |calls| && calls[i].key == k && calls[j].key == k
          ==> calls[i].time <= calls[j].time)
  }

  ghost predicate WithinLimit(calls: seq<Call>, k: Key, period: U64, threshold: U64, from: nat) {
    AcceptedWithin(calls, k, from, from + period) <= WindowLimit(period, threshold)
  }

  ghost predicate Bounded(k: Key, period: U64, threshold: U64, latest: U64) {
    forall calls: seq<Call>, from: nat ::
      Regular(calls, k, period, threshold, latest) && NeverForgotten(calls, k)
      ==> WithinLimit(calls, k, period, threshold, from)
  }

  /** Up to a latest time, the bound holds of all histories if and only if the sum of the cycle
      test fits in 64 bits at that time - or the threshold is so large that no history has enough
      calls to break it. */
  lemma {:induction false} WindowBoundIff(k: Key, period: U64, threshold: U64, latest: U64)
    requires latest != 0
    ensures Bounded(k, period, threshold, latest) <==>
            Sec(latest) + period < TWO_TO_THE_64 || 2 * CycleLimit(threshold) >= TWO_TO_THE_64
  {
    hide AcceptedWithin, NeverForgotten;
    if Sec(latest) + period < TWO_TO_THE_64 || 2 * CycleLimit(threshold) >= TWO_TO_THE_64 {
      forall calls: seq<Call>, from: nat | Regular(calls, k, period, threshold, latest) && NeverForgotten(calls, k)
        ensures WithinLimit(calls, k, period, threshold, from)
      {
        if Sec(latest) + period < TWO_TO_THE_64 {
          RegularIsSteady(calls, k, period, threshold, latest);
          WindowBound(calls, k, period, threshold, from);
        } else {
          AcceptedAtMostAll(calls, k, from, from + period);
        }
      }
    } else {
      var c, n := Call(k, latest, period, threshold), 2 * CycleLimit(threshold);
      WrapAroundAccepts(c, n);
      assert Regular(Copies(c, n), k, period, threshold, latest);
      assert !WithinLimit(Copies(c, n), k, period, threshold, Sec(latest));
    }
  }

  lemma {:induction false} RegularIsSteady(calls: seq<Call>, k: Key, period: U64, threshold: U64, latest: U64)
    requires Regular(calls, k, period, threshold, latest) && Sec(latest) + period < TWO_TO_THE_64
    ensures Steady(calls, k, period, threshold)
  {
  }

  lemma {:induction false} AcceptedAtMostAll(calls: seq<Call>, k: Key, from: nat, to: nat)
    ensures AcceptedWithin(calls, k, from, to) <= |calls|
  {
    hide CachedVerdict;
    if calls != [] {
      AcceptedAtMostAll(calls[..|calls| - 1], k, from, to);
    }
  }
}
