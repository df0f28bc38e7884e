/** The rate limiter of the event writer: a decision per key whose state lives in the cache. */
module WriteController {
  import opened ByteStrings
  import opened LruCache
  import opened Sequences

  const LRU_CACHE_DEFAULT_SIZE: nat := 30
  const SEC_TO_MILLIS: nat := 1000
  const INVALID_TIME_STAMP: U64 := 0

  /** One call: the key stands for the event name and the place it is written from. */
  datatype Call = Call(key: Key, time: U64, period: U64, threshold: U64)

  function Sec(time: U64): nat {
    time / SEC_TO_MILLIS
  }

  /** The stored record starts a new cycle: it is empty, its cycle is over, or it lies in the
      future. The sum wraps around like the 64-bit addition it models. */
  predicate NewCycle(r: Record, c: Call) {
    r.count == 0 || (Sec(r.timestamp) + c.period) % TWO_TO_THE_64 < Sec(c.time)
    || Sec(r.timestamp) > Sec(c.time)
  }

  function Counted(r: Record, c: Call): Record {
    if NewCycle(r, c) then Record(1, c.time) else r.(count := (r.count + 1) % TWO_TO_THE_64)
  }

  predicate Accepts(r: Record, c: Call) {
    NewCycle(r, c) || (r.count + 1) % TWO_TO_THE_64 <= c.threshold
  }

  function Verdict(r: Record, c: Call): U64 {
    if Accepts(r, c) then c.time else INVALID_TIME_STAMP
  }

  // ---------- the limiter over the cache

  function CallState(s: Lru, c: Call): Lru {
    PutState(GetState(s, c.key), LRU_CACHE_DEFAULT_SIZE, c.key, Counted(GetRecord(s, c.key), c))
  }

  function AfterCalls(calls: seq<Call>): Lru {
    if calls == [] then EMPTY else CallState(AfterCalls(calls[..|calls| - 1]), calls[|calls| - 1])
  }

  /** What the limiter returns for the last of the calls. */
  function CachedVerdict(calls: seq<Call>): U64
    requires calls != []
  {
    var c := calls[|calls| - 1];
    Verdict(GetRecord(AfterCalls(calls[..|calls| - 1]), c.key), c)
  }

  class Controller {
    const cache: EventWroteLruCache

    constructor ()
      ensures cache.Valid() && cache.capacity == LRU_CACHE_DEFAULT_SIZE && cache.Contents() == AfterCalls([])
      ensures fresh(cache)
    {
      cache := new EventWroteLruCache(LRU_CACHE_DEFAULT_SIZE);
    }

    method CheckLimitWritingEvent(c: Call) returns (timeStamp: U64)
      requires cache.Valid() && cache.capacity == LRU_CACHE_DEFAULT_SIZE
      modifies cache
      ensures cache.Valid()
      ensures cache.Contents() == CallState(old(cache.Contents()), c)
      ensures timeStamp == Verdict(GetRecord(old(cache.Contents()), c.key), c)
    {
      hide GetState, PutState, EventWroteLruCache.Contents, EventWroteLruCache.Valid;
      var record := cache.Get(c.key);
      var cur := c.time;
      if record.count == 0 || (record.timestamp / SEC_TO_MILLIS + c.period) % TWO_TO_THE_64 < cur / SEC_TO_MILLIS
         || record.timestamp / SEC_TO_MILLIS > cur / SEC_TO_MILLIS {
        record := Record(1, cur);
        cache.Put(c.key, record);
        return cur;
      }
      record := record.(count := (record.count + 1) % TWO_TO_THE_64);
      if record.count <= c.threshold {
        cache.Put(c.key, record);
        return cur;
      }
      cache.Put(c.key, record);
      return INVALID_TIME_STAMP;
    }
  }

  // ---------- the limiter without a cache

  function KeyLog(calls: seq<Call>): (r: seq<Key>)
    ensures |r| == |calls| && forall i :: 0 <= i < |calls| ==> r[i] == calls[i].key
  {
    seq(|calls|, i requires 0 <= i < |calls| => calls[i].key)
  }

  /** The keys called after the last call of `k`. */
  ghost function KeysSince(calls: seq<Call>, k: Key): set<Key> {
    var log := KeyLog(calls);
    set i | Last(log, k) < i < |log| :: log[i]
  }

  /** A key is forgotten when 30 or more other keys were called since its last call. */
  ghost predicate Forgotten(calls: seq<Call>, k: Key) {
    |KeysSince(calls, k)| >= 30
  }

  /** The ideal record of `k` after the calls: nothing for a key that was never called or is
      forgotten, otherwise what the last call of `k` made of the record before it. */
  ghost function IdealRecord(calls: seq<Call>, k: Key): Record
    decreases |calls|
  {
    var j := Last(KeyLog(calls), k);
    if j < 0 || Forgotten(calls, k) then FRESH
    else Counted(IdealRecord(calls[..j], k), calls[j])
  }

  /** The record as the last call of `k` left it, forgotten or not. */
  ghost function LeftRecord(calls: seq<Call>, k: Key): Record
    requires Last(KeyLog(calls), k) >= 0
  {
    var j := Last(KeyLog(calls), k);
    Counted(IdealRecord(calls[..j], k), calls[j])
  }

  // ---------- cardinality

  ghost function Elements<T>(s: seq<T>): set<T> {
    set x | x in s
  }

  lemma {:induction false} DistinctCount<T>(s: seq<T>)
    requires NoDuplicates(s)
    ensures |Elements(s)| == |s|
  {
    if s != [] {
      var init, x := s[..|s| - 1], s[|s| - 1];
      DistinctCount(init);
      assert x !in init by {
        assert forall i :: 0 <= i < |init| ==> init[i] == s[i] && s[i] != s[|s| - 1];
      }
      assert Elements(s) == Elements(init) + {x};
    }
  }

  lemma {:induction false} SubsetCount<T>(a: set<T>, b: set<T>)
    requires a <= b
    ensures |a| <= |b|
  {
    assert b == a + (b - a);
  }

  /** In a most-recent list, the keys in front of a key are those called after it. */
  lemma {:induction false} CachedIffRecent(order: seq<Key>, calls: seq<Call>, k: Key)
    requires MostRecent(order, KeyLog(calls), LRU_CACHE_DEFAULT_SIZE)
    ensures k in order <==> Last(KeyLog(calls), k) >= 0 && !Forgotten(calls, k)
  {
    var log := KeyLog(calls);
    var since := KeysSince(calls, k);
    DescendingDistinct(order, log);
    if k in order {
      var p :| 0 <= p < |order| && order[p] == k;
      var front := order[..p];
      DistinctCount(front);
      forall x | x in since
        ensures x in Elements(front)
      {
        InFront(order, calls, k, p, x);
      }
      SubsetCount(since, Elements(front));
      assert k in log;
    } else if Last(log, k) >= 0 {
      assert log[Last(log, k)] == k;
      DistinctCount(order);
      forall x | x in order
        ensures x in since
      {
        assert log[Last(log, x)] == x;
      }
      SubsetCount(Elements(order), since);
    }
  }

  lemma {:induction false} InFront(order: seq<Key>, calls: seq<Call>, k: Key, p: nat, x: Key)
    requires MostRecent(order, KeyLog(calls), LRU_CACHE_DEFAULT_SIZE)
    requires p < |order| && order[p] == k && x in KeysSince(calls, k)
    ensures x in order[..p]
  {
    var log := KeyLog(calls);
    var i :| Last(log, k) < i < |log| && log[i] == x;
    assert Last(log, x) >= i;
    assert x in log && k in order;
    var q :| 0 <= q < |order| && order[q] == x;
    assert q < p;
    assert order[..p][q] == x;
  }

  // ---------- the refinement

  lemma {:induction false} CallIsTouch(s: Lru, log: seq<Key>, c: Call)
    requires Consistent(s) && MostRecent(s.order, log, LRU_CACHE_DEFAULT_SIZE)
    ensures Consistent(CallState(s, c))
    ensures MostRecent(CallState(s, c).order, log + [c.key], LRU_CACHE_DEFAULT_SIZE)
    ensures CallState(s, c).records.Keys <= s.records.Keys + {c.key}
    ensures c.key in CallState(s, c).records
    ensures forall k <- CallState(s, c).records ::
              CallState(s, c).records[k] ==
              if k == c.key then Counted(GetRecord(s, k), c) else s.records[k]
  {
    var n, r := LRU_CACHE_DEFAULT_SIZE, Counted(GetRecord(s, c.key), c);
    StepConsistent(s, n, c.key, FRESH);
    StepConsistent(GetState(s, c.key), n, c.key, r);
    if c.key in s.order {
      TouchCached(s.order, log, n, c.key);
      TouchTwice(s.order, c.key);
    } else {
      TouchNew(s.order, log, n, c.key);
    }
  }

  /** The hit of Get and the Put after it move the key to the front once. */
  lemma {:induction false} TouchTwice(order: seq<Key>, k: Key)
    requires NoDuplicates(order)
    ensures Without([k] + Without(order, k), k) == Without(order, k)
  {
  }

  /** The cache lists the most recently called keys and stores the record that the last call of
      each of them left. */
  ghost predicate HoldsIdeal(s: Lru, calls: seq<Call>) {
    && Consistent(s) && MostRecent(s.order, KeyLog(calls), LRU_CACHE_DEFAULT_SIZE)
    && (forall k <- s.records :: Last(KeyLog(calls), k) >= 0 && s.records[k] == LeftRecord(calls, k))
  }

  lemma {:induction false} HoldsIdealStep(s: Lru, calls: seq<Call>, c: Call)
    requires HoldsIdeal(s, calls)
    ensures HoldsIdeal(CallState(s, c), calls + [c])
  {
    hide CallState, Consistent, MostRecent, LeftRecord, IdealRecord, Counted, GetRecord;
    var log, after := KeyLog(calls), CallState(s, c);
    CallIsTouch(s, log, c);
    assert KeyLog(calls + [c]) == log + [c.key];
    GetIsIdeal(s, calls, c.key);
    forall k | k in after.records
      ensures Last(KeyLog(calls + [c]), k) >= 0 && after.records[k] == LeftRecord(calls + [c], k)
    {
      LeftRecordStep(calls, c, k);
    }
  }

  /** After any calls, the cache holds exactly the keys that are not forgotten, each with its
      ideal record. */
  lemma {:induction false} CacheHoldsIdealRecords(calls: seq<Call>)
    ensures HoldsIdeal(AfterCalls(calls), calls)
    ensures forall k :: k in AfterCalls(calls).records <==> Last(KeyLog(calls), k) >= 0 && !Forgotten(calls, k)
  {
    hide HoldsIdeal, CallState, Forgotten, Last;
    if calls == [] {
      assert HoldsIdeal(EMPTY, []) by { NothingHeld(); }
    } else {
      var init, c := calls[..|calls| - 1], calls[|calls| - 1];
      CacheHoldsIdealRecords(init);
      HoldsIdealStep(AfterCalls(init), init, c);
      assert calls == init + [c];
    }
    forall k {
      HeldIffRecent(AfterCalls(calls), calls, k);
    }
  }

  lemma {:induction false} NothingHeld()
    ensures HoldsIdeal(EMPTY, [])
  {
  }

  lemma {:induction false} HeldIffRecent(s: Lru, calls: seq<Call>, k: Key)
    requires HoldsIdeal(s, calls)
    ensures k in s.records <==> Last(KeyLog(calls), k) >= 0 && !Forgotten(calls, k)
  {
    CachedIffRecent(s.order, calls, k);
  }

  lemma {:induction false} LeftRecordStep(init: seq<Call>, c: Call, k: Key)
    requires k == c.key || Last(KeyLog(init), k) >= 0
    ensures KeyLog(init + [c]) == KeyLog(init) + [c.key] && Last(KeyLog(init + [c]), k) >= 0
    ensures LeftRecord(init + [c], k) ==
            if k == c.key then Counted(IdealRecord(init, k), c) else LeftRecord(init, k)
  {
    var calls, log := init + [c], KeyLog(init);
    assert KeyLog(calls) == log + [c.key];
    LastAppend(log, c.key, k);
    var j := Last(KeyLog(calls), k);
    assert calls[..j] == if k == c.key then init else init[..j];
  }

  /** Looking a key up in the cache gives its ideal record. */
  lemma {:induction false} GetIsIdeal(s: Lru, calls: seq<Call>, k: Key)
    requires HoldsIdeal(s, calls)
    ensures GetRecord(s, k) == IdealRecord(calls, k)
  {
    CachedIffRecent(s.order, calls, k);
  }

  /** On every sequence of calls, the verdict of the limiter over the 30-entry cache is that of
      the ideal limiter. */
  lemma {:induction false} CacheRefinesIdeal(calls: seq<Call>, c: Call)
    ensures CachedVerdict(calls + [c]) == Verdict(IdealRecord(calls, c.key), c)
  {
    assert (calls + [c])[..|calls|] == calls;
    CacheHoldsIdealRecords(calls);
    GetIsIdeal(AfterCalls(calls), calls, c.key);
  }

  // ---------- where cycles start and how they go on, for all times, also those that go back

  /** What one more call does to the records, and its verdict. */
  lemma {:induction false} CallLeaves(calls: seq<Call>, c: Call)
    ensures var before, after := AfterCalls(calls), AfterCalls(calls + [c]);
            && c.key in after.records && after.records[c.key] == Counted(GetRecord(before, c.key), c)
            && (forall k <- after.records :: k != c.key ==> k in before.records && after.records[k] == before.records[k])
            && CachedVerdict(calls + [c]) == Verdict(GetRecord(before, c.key), c)
  {
    hide Forgotten, Counted, Verdict;
    assert (calls + [c])[..|calls|] == calls;
    CacheHoldsIdealRecords(calls);
    CallIsTouch(AfterCalls(calls), KeyLog(calls), c);
  }

  ghost predicate CalledAt(calls: seq<Call>, k: Key, time: U64) {
    exists i :: 0 <= i < |calls| && calls[i].key == k && calls[i].time == time
  }

  lemma {:induction false} CalledAtStep(calls: seq<Call>, c: Call, k: Key, time: U64)
    ensures CalledAt(calls, k, time) || (c.key == k && c.time == time) ==> CalledAt(calls + [c], k, time)
  {
    if c.key == k && c.time == time {
      assert (calls + [c])[|calls|].key == k;
    } else if CalledAt(calls, k, time) {
      var i :| 0 <= i < |calls| && calls[i].key == k && calls[i].time == time;
      assert (calls + [c])[i] == calls[i];
    }
  }

  /** The limiter's record of a key carries the time of a call of that key. */
  lemma {:induction false} RecordsAreFromCalls(calls: seq<Call>)
    ensures forall k <- AfterCalls(calls).records :: CalledAt(calls, k, AfterCalls(calls).records[k].timestamp)
  {
    if calls != [] {
      var init, c := calls[..|calls| - 1], calls[|calls| - 1];
      assert calls == init + [c];
      RecordsAreFromCalls(init);
      CallLeaves(init, c);
      hide CallState, AfterCalls, CalledAt, Counted;
      CountedTime(GetRecord(AfterCalls(init), c.key), c);
      forall k | k in AfterCalls(calls).records
        ensures CalledAt(calls, k, AfterCalls(calls).records[k].timestamp)
      {
        CalledAtStep(init, c, k, AfterCalls(calls).records[k].timestamp);
      }
    }
  }

  lemma {:induction false} CountedTime(r: Record, c: Call)
    ensures Counted(r, c).timestamp == c.time || (Counted(r, c).timestamp == r.timestamp && r.count != 0)
  {
  }

  /** The call is not in a cycle of the call before: it lies earlier, in whole seconds, or the
      64-bit sum of that second and the period lies before it. */
  predicate Apart(before: Call, c: Call) {
    before.time / 1000 > c.time / 1000 || (before.time / 1000 + c.period) % TWO_TO_THE_64 < c.time / 1000
  }

  /** A call is accepted and starts a cycle when its key was forgotten or the call is apart from all
      earlier ones of its key; in particular when the clock went back behind all of them. */
  lemma {:induction false} StartsCycle(calls: seq<Call>, c: Call)
    requires Forgotten(calls, c.key) || forall b <- calls :: b.key == c.key ==> Apart(b, c)
    ensures CachedVerdict(calls + [c]) == c.time
    ensures c.key in AfterCalls(calls + [c]).records
    ensures AfterCalls(calls + [c]).records[c.key] == Record(1, c.time)
  {
    hide CallState, AfterCalls, CachedVerdict, Forgotten, HoldsIdeal, Apart, Counted, Verdict;
    var s := AfterCalls(calls);
    RecordsAreFromCalls(calls);
    CacheHoldsIdealRecords(calls);
    CallLeaves(calls, c);
    if c.key in s.records {
      var i :| 0 <= i < |calls| && calls[i].key == c.key && calls[i].time == s.records[c.key].timestamp;
      assert calls[i] in calls;
      ApartStarts(s.records[c.key], calls[i], c);
    } else {
      FreshStarts(c);
    }
  }

  lemma {:induction false} ApartStarts(r: Record, before: Call, c: Call)
    requires before.time == r.timestamp && Apart(before, c)
    ensures Counted(r, c) == Record(1, c.time) && Verdict(r, c) == c.time
  {
  }

  lemma {:induction false} FreshStarts(c: Call)
    ensures Counted(FRESH, c) == Record(1, c.time) && Verdict(FRESH, c) == c.time
  {
  }

  /** The clock went back behind all earlier calls of the key: the call is accepted. */
  lemma {:induction false} ClockBackAccepts(calls: seq<Call>, c: Call)
    requires forall b <- calls :: b.key == c.key ==> b.time / 1000 > c.time / 1000
    ensures CachedVerdict(calls + [c]) == c.time
  {
    assert forall b <- calls :: b.key == c.key ==> Apart(b, c);
    StartsCycle(calls, c);
  }

  /** More calls of the key in the seconds of a cycle that `c` started. */
  predicate InCycle(c: Call, more: seq<Call>) {
    && |more| + 1 < TWO_TO_THE_64 && c.time / 1000 + c.period < TWO_TO_THE_64
    && forall d <- more :: d.key == c.key && d.period == c.period && d.threshold == c.threshold
                           && c.time / 1000 <= d.time / 1000 <= c.time / 1000 + c.period
  }

  /** They count from that start, and are accepted as long as the threshold is not exceeded,
      whatever was before. */
  lemma {:induction false} CycleCounts(calls: seq<Call>, c: Call, more: seq<Call>)
    requires Forgotten(calls, c.key) || forall b <- calls :: b.key == c.key ==> Apart(b, c)
    requires InCycle(c, more)
    ensures var all := calls + [c] + more;
            && c.key in AfterCalls(all).records
            && AfterCalls(all).records[c.key] == Record(1 + |more|, c.time)
            && CachedVerdict(all) == if more == [] then c.time
                                     else if 1 + |more| <= c.threshold then more[|more| - 1].time
                                     else INVALID_TIME_STAMP
  {
    hide CallState, AfterCalls, CachedVerdict, Forgotten, Apart;
    if more == [] {
      StartsCycle(calls, c);
      assert calls + [c] + more == calls + [c];
    } else {
      var init, d := more[..|more| - 1], more[|more| - 1];
      CycleCounts(calls, c, init);
      assert calls + [c] + more == calls + [c] + init + [d] && d in more;
      CallLeaves(calls + [c] + init, d);
      var sum := c.time / 1000 + c.period;
      DivModUnique(sum, TWO_TO_THE_64, 0, sum);
      DivModUnique(1 + |more|, TWO_TO_THE_64, 0, 1 + |more|);
    }
  }
}
