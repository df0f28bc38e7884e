/** The bounded least-recently-used cache of the rate limiter: what it holds, in terms of the
    history of calls, and the list-and-map implementation. */
module LruCache {
  import opened ByteStrings
  import opened Sequences

  type Key = nat

  datatype Record = Record(count: U64, timestamp: U64)
  const FRESH := Record(0, 0)

  // ---------- the cache as a value

  /** Keys from most to least recently used, and a record for each of them. */
  datatype Lru = Lru(order: seq<Key>, records: map<Key, Record>)
  const EMPTY := Lru([], map[])

  function Without<T(==)>(s: seq<T>, x: T): (r: seq<T>)
    ensures |r| == if x in s then |s| - 1 else |s|
    ensures forall y :: y in r ==> y in s
  {
    if s == [] then []
    else if s[0] == x then s[1..]
    else [s[0]] + Without(s[1..], x)
  }

  function GetState(c: Lru, k: Key): Lru {
    if k in c.records then c.(order := [k] + Without(c.order, k)) else c
  }

  function GetRecord(c: Lru, k: Key): Record {
    if k in c.records then c.records[k] else FRESH
  }

  function PutState(c: Lru, capacity: nat, k: Key, r: Record): Lru {
    if capacity == 0 then c
    else if k in c.records then Lru([k] + Without(c.order, k), c.records[k := r])
    else if |c.order| == capacity then
      var last := c.order[|c.order| - 1];
      Lru([k] + c.order[..|c.order| - 1], (c.records - {last})[k := r])
    else Lru([k] + c.order, c.records[k := r])
  }

  // ---------- what a history says about the contents

  /** The index of the last occurrence, -1 if there is none. */
  function Last(log: seq<Key>, k: Key): (r: int)
    ensures -1 <= r < |log|
    ensures r >= 0 ==> log[r] == k
    ensures forall i :: r < i < |log| ==> log[i] != k
  {
    if log == [] then -1
    else if log[|log| - 1] == k then |log| - 1
    else Last(log[..|log| - 1], k)
  }

  /** Later touched keys come first; in particular no key comes twice. */
  ghost predicate Descending(order: seq<Key>, log: seq<Key>) {
    forall i, j :: 0 <= i < j < |order| ==> Last(log, order[i]) > Last(log, order[j])
  }

  /** `order` lists the most recently touched keys of the log, most recent first, without
      duplicates: all of them, or as many as the capacity allows. */
  ghost predicate MostRecent(order: seq<Key>, log: seq<Key>, capacity: nat) {
    && |order| <= capacity && Descending(order, log)
    && (forall k <- order :: k in log)
    && (forall k <- log :: k !in order ==>
          |order| == capacity && forall m <- order :: Last(log, m) > Last(log, k))
  }

  /** Removing an element keeps the relative order of the others. */
  lemma {:induction false} WithoutIndex<T>(s: seq<T>, x: T) returns (at: nat)
    requires x in s
    ensures at < |s| && s[at] == x && Without(s, x) == s[..at] + s[at + 1..]
  {
    if s[0] == x {
      at := 0;
    } else {
      at := WithoutIndex(s[1..], x);
      assert s[..at + 1] == [s[0]] + s[1..][..at] && s[1..][at + 1..] == s[at + 2..];
      at := at + 1;
    }
  }

  lemma {:induction false} WithoutAbsent<T>(s: seq<T>, x: T)
    requires x !in s
    ensures Without(s, x) == s
  {
    if s != [] {
      WithoutAbsent(s[1..], x);
    }
  }

  lemma {:induction false} WithoutKeepsOrder<T>(s: seq<T>, x: T)
    requires NoDuplicates(s)
    ensures NoDuplicates(Without(s, x)) && x !in Without(s, x)
    ensures forall y :: y in s && y != x ==> y in Without(s, x)
  {
    hide Without;
    if x in s {
      var at := WithoutIndex(s, x);
      var r := s[..at] + s[at + 1..];
      assert forall i :: 0 <= i < |r| ==> r[i] == if i < at then s[i] else s[i + 1];
      forall y | y in s && y != x
        ensures y in r
      {
        var i :| 0 <= i < |s| && s[i] == y;
        assert r[if i < at then i else i - 1] == y;
      }
    } else {
      WithoutAbsent(s, x);
    }
  }

  lemma {:induction false} LastAppend(log: seq<Key>, x: Key, k: Key)
    ensures Last(log + [x], k) == if k == x then |log| else Last(log, k)
  {
    assert (log + [x])[..|log|] == log;
  }

  lemma {:induction false} DescendingFront(order: seq<Key>, log: seq<Key>, x: Key)
    requires Descending(order, log) && x !in order
    ensures Descending([x] + order, log + [x])
  {
    forall k {
      LastAppend(log, x, k);
    }
  }

  lemma {:induction false} DescendingDistinct(order: seq<Key>, log: seq<Key>)
    requires Descending(order, log)
    ensures NoDuplicates(order)
  {
  }

  lemma {:induction false} DescendingWithout(order: seq<Key>, log: seq<Key>, x: Key)
    requires Descending(order, log) && x in order
    ensures Descending(Without(order, x), log)
  {
    DescendingDistinct(order, log);
    var at := WithoutIndex(order, x);
  }

  /** Touching a cached key moves it to the front. */
  lemma {:induction false} TouchCached(order: seq<Key>, log: seq<Key>, capacity: nat, x: Key)
    requires MostRecent(order, log, capacity) && x in order
    ensures MostRecent([x] + Without(order, x), log + [x], capacity)
  {
    hide Descending;
    DescendingDistinct(order, log);
    WithoutKeepsOrder(order, x);
    DescendingWithout(order, log, x);
    DescendingFront(Without(order, x), log, x);
    forall k {
      LastAppend(log, x, k);
    }
  }

  /** Touching a new key puts it in front and, in a full cache, drops the last key. */
  lemma {:induction false} TouchNew(order: seq<Key>, log: seq<Key>, capacity: nat, x: Key)
    requires MostRecent(order, log, capacity) && x !in order && capacity > 0
    ensures MostRecent([x] + (if |order| == capacity then order[..capacity - 1] else order),
                       log + [x], capacity)
  {
    var kept := if |order| == capacity then order[..capacity - 1] else order;
    DescendingFront(kept, log, x);
    forall k {
      LastAppend(log, x, k);
    }
  }

  /** The history determines the contents. */
  lemma {:induction false} MostRecentIsUnique(o1: seq<Key>, o2: seq<Key>, log: seq<Key>, capacity: nat)
    requires MostRecent(o1, log, capacity) && MostRecent(o2, log, capacity)
    ensures o1 == o2
  {
    var n := if |o1| < |o2| then |o1| else |o2|;
    SamePrefix(o1, o2, log, capacity, n);
    NotLonger(o1, o2, log, capacity);
    NotLonger(o2, o1, log, capacity);
  }

  lemma {:induction false} SamePrefix(o1: seq<Key>, o2: seq<Key>, log: seq<Key>, capacity: nat, n: nat)
    requires MostRecent(o1, log, capacity) && MostRecent(o2, log, capacity)
    requires n <= |o1| && n <= |o2|
    ensures forall i :: 0 <= i < n ==> o1[i] == o2[i]
  {
    hide MostRecent;
    if n > 0 {
      SamePrefix(o1, o2, log, capacity, n - 1);
      SameNext(o1, o2, log, capacity, n - 1);
    }
  }

  lemma {:induction false} SameNext(o1: seq<Key>, o2: seq<Key>, log: seq<Key>, capacity: nat, i: nat)
    requires MostRecent(o1, log, capacity) && MostRecent(o2, log, capacity)
    requires i < |o1| && i < |o2| && forall j :: 0 <= j < i ==> o1[j] == o2[j]
    ensures o1[i] == o2[i]
  {
    assert o1[i] in log && o2[i] in log;
    hide MostRecent;
    NotBefore(o1, o2, log, capacity, i);
    NotBefore(o2, o1, log, capacity, i);
    LastIsInjective(log, o1[i], o2[i]);
  }

  lemma {:induction false} LastIsInjective(log: seq<Key>, j: Key, k: Key)
    requires j in log && k in log && Last(log, j) == Last(log, k)
    ensures j == k
  {
  }

  lemma {:induction false} NotBefore(o1: seq<Key>, o2: seq<Key>, log: seq<Key>, capacity: nat, i: nat)
    requires MostRecent(o1, log, capacity) && MostRecent(o2, log, capacity)
    requires i < |o1| && i < |o2| && forall j :: 0 <= j < i ==> o1[j] == o2[j]
    ensures Last(log, o1[i]) <= Last(log, o2[i])
  {
    assert o1[i] in log;
  }

  lemma {:induction false} NotLonger(o1: seq<Key>, o2: seq<Key>, log: seq<Key>, capacity: nat)
    requires MostRecent(o1, log, capacity) && MostRecent(o2, log, capacity)
    requires forall i :: 0 <= i < |o1| && i < |o2| ==> o1[i] == o2[i]
    ensures |o1| <= |o2|
  {
    if o1 != [] {
      ReachesAsFar(o1, o2, log, capacity, |o1| - 1);
    }
  }

  lemma {:induction false} ReachesAsFar(o1: seq<Key>, o2: seq<Key>, log: seq<Key>, capacity: nat, k: nat)
    requires MostRecent(o1, log, capacity) && MostRecent(o2, log, capacity)
    requires forall i :: 0 <= i < |o1| && i < |o2| ==> o1[i] == o2[i]
    requires k < |o1|
    ensures k < |o2|
  {
    assert o1[k] in log;
  }

  // ---------- runs of Get and Put

  datatype Op = Get(k: Key) | Put(k: Key, r: Record)

  function After(ops: seq<Op>, capacity: nat): Lru {
    if ops == [] then EMPTY
    else
      var before := After(ops[..|ops| - 1], capacity);
      match ops[|ops| - 1]
      case Get(k) => GetState(before, k)
      case Put(k, r) => PutState(before, capacity, k, r)
  }

  /** The touched keys, oldest first. A Get that misses is not a touch. */
  function Touches(ops: seq<Op>, capacity: nat): seq<Key> {
    if ops == [] then []
    else
      var init := ops[..|ops| - 1];
      match ops[|ops| - 1]
      case Get(k) => Touches(init, capacity) + (if k in After(init, capacity).records then [k] else [])
      case Put(k, _) => Touches(init, capacity) + [k]
  }

  /** The record of the last Put of a key. */
  function LastPut(ops: seq<Op>, k: Key): Option<Record> {
    if ops == [] then None
    else match ops[|ops| - 1]
      case Get(_) => LastPut(ops[..|ops| - 1], k)
      case Put(k', r) => if k' == k then Some(r) else LastPut(ops[..|ops| - 1], k)
  }

  /** Order and map have the same keys. */
  ghost predicate Consistent(c: Lru) {
    NoDuplicates(c.order) && forall k :: k in c.records <==> k in c.order
  }

  lemma {:induction false} FrontKeeps(order: seq<Key>, k: Key)
    requires NoDuplicates(order) && k in order
    ensures NoDuplicates([k] + Without(order, k))
    ensures forall x :: x in [k] + Without(order, k) <==> x in order
  {
    WithoutKeepsOrder(order, k);
  }

  lemma {:induction false} StepConsistent(c: Lru, capacity: nat, k: Key, r: Record)
    requires Consistent(c) && |c.order| <= capacity
    ensures Consistent(GetState(c, k)) && |GetState(c, k).order| <= capacity
    ensures Consistent(PutState(c, capacity, k, r)) && |PutState(c, capacity, k, r).order| <= capacity
  {
    WithoutKeepsOrder(c.order, k);
    if k in c.records {
      FrontKeeps(c.order, k);
    } else if capacity > 0 && |c.order| == capacity {
      var last := c.order[capacity - 1];
      assert forall x :: x in c.order <==> x in c.order[..capacity - 1] || x == last;
    }
  }

  /** What the history says about the whole state. */
  ghost predicate Reflects(c: Lru, ops: seq<Op>, log: seq<Key>, capacity: nat) {
    && Consistent(c) && MostRecent(c.order, log, capacity)
    && forall k <- c.order :: LastPut(ops, k) == Some(c.records[k])
  }

  lemma {:induction false} ReflectsGet(c: Lru, ops: seq<Op>, log: seq<Key>, capacity: nat, k: Key)
    requires Reflects(c, ops, log, capacity)
    ensures Reflects(GetState(c, k), ops + [Get(k)], log + (if k in c.records then [k] else []), capacity)
  {
    MostRecentFits(c.order, log, capacity);
    hide MostRecent, Consistent, LastPut;
    StepConsistent(c, capacity, k, FRESH);
    ConsistentMeans(c, k);
    var after := GetState(c, k);
    if k in c.records {
      TouchCached(c.order, log, capacity, k);
    } else {
      assert log + [] == log;
    }
    forall x <- after.order ensures LastPut(ops + [Get(k)], x) == Some(after.records[x]) {
      ConsistentMeans(c, x);
      ConsistentMeans(after, x);
      LastPutOfGet(ops, k, x);
    }
  }

  lemma {:induction false} LastPutOfGet(ops: seq<Op>, k: Key, x: Key)
    ensures LastPut(ops + [Get(k)], x) == LastPut(ops, x)
  {
    assert (ops + [Get(k)])[..|ops|] == ops;
  }

  lemma {:induction false} MostRecentFits(order: seq<Key>, log: seq<Key>, capacity: nat)
    requires MostRecent(order, log, capacity)
    ensures |order| <= capacity
  {
  }

  lemma {:induction false} ConsistentMeans(c: Lru, k: Key)
    requires Consistent(c)
    ensures k in c.records <==> k in c.order
  {
  }

  lemma {:induction false} LastPutStep(ops: seq<Op>, k: Key, r: Record, x: Key)
    ensures LastPut(ops + [Put(k, r)], x) == if x == k then Some(r) else LastPut(ops, x)
  {
    assert (ops + [Put(k, r)])[..|ops|] == ops;
  }

  lemma {:induction false} ReflectsPut(c: Lru, ops: seq<Op>, log: seq<Key>, capacity: nat, k: Key, r: Record)
    requires Reflects(c, ops, log, capacity)
    ensures Reflects(PutState(c, capacity, k, r), ops + [Put(k, r)], log + [k], capacity)
  {
    hide LastPut;
    StepConsistent(c, capacity, k, r);
    forall x {
      LastPutStep(ops, k, r, x);
    }
    if k in c.order {
      TouchCached(c.order, log, capacity, k);
    } else if capacity > 0 {
      TouchNew(c.order, log, capacity, k);
    }
  }

  /** After any run of Get and Put, the list is exactly the most recently touched keys, the map
      has the same keys, and each record is the last one put for its key. */
  lemma {:induction false} ContentsAfterRun(ops: seq<Op>, capacity: nat)
    ensures Reflects(After(ops, capacity), ops, Touches(ops, capacity), capacity)
  {
    hide Reflects, GetState, PutState;
    if ops == [] {
      NothingReflected(capacity);
    } else {
      var init := ops[..|ops| - 1];
      ContentsAfterRun(init, capacity);
      assert ops == init + [ops[|ops| - 1]];
      match ops[|ops| - 1]
      case Get(k) => ReflectsGet(After(init, capacity), init, Touches(init, capacity), capacity, k);
      case Put(k, r) => ReflectsPut(After(init, capacity), init, Touches(init, capacity), capacity, k, r);
    }
  }

  lemma {:induction false} NothingReflected(capacity: nat)
    ensures Reflects(EMPTY, [], [], capacity)
  {
  }

  // ---------- the implementation

  /** A node of the doubly linked list; an iterator is a reference to it. */
  class ListNode {
    const key: Key
    constructor (key: Key)
      ensures this.key == key
    {
      this.key := key;
    }
  }

  datatype CacheNode = CacheNode(iter: ListNode, record: Record)

  class EventWroteLruCache {
    var key2Index: map<Key, CacheNode>
    var keyCache: seq<ListNode>
    const capacity: nat

    /** The map and the list have the same keys, and every stored iterator is the list node of
        its own key. */
    ghost predicate Valid()
      reads this
    {
      |keyCache| <= capacity && Linked(key2Index, keyCache)
    }

    ghost function Contents(): Lru
      reads this
    {
      Lru(Keys(keyCache), Records(key2Index))
    }

    constructor (capacity: nat)
      ensures Valid() && Contents() == EMPTY && this.capacity == capacity
    {
      this.capacity := capacity;
      key2Index, keyCache := map[], [];
    }

    method Get(key: Key) returns (record: Record)
      requires Valid()
      modifies this
      ensures Valid()
      ensures record == GetRecord(old(Contents()), key)
      ensures Contents() == GetState(old(Contents()), key)
    {
      hide Linked;
      record := FRESH;
      if key !in key2Index {
        return;
      }
      Modify(key);
      return key2Index[key].record;
    }

    method Put(key: Key, record: Record)
      requires Valid()
      modifies this
      ensures Valid()
      ensures Contents() == PutState(old(Contents()), capacity, key, record)
    {
      hide Linked, Records, Keys;
      RecordsOf(key2Index);
      if capacity == 0 {
        return;
      }
      if key in key2Index {
        RecordChange(key2Index, keyCache, key, record);
        key2Index := key2Index[key := key2Index[key].(record := record)];
        Modify(key);
        return;
      }
      if |keyCache| == capacity {
        DropLast(key2Index, keyCache);
        key2Index := key2Index - {keyCache[|keyCache| - 1].key};
        keyCache := keyCache[..|keyCache| - 1];
      }
      var node := new ListNode(key);
      PushFront(key2Index, keyCache, node, record);
      keyCache := [node] + keyCache;
      key2Index := key2Index[key := CacheNode(keyCache[0], record)];
    }

    /** Splices the node of a cached key to the front of the list. */
    method Modify(key: Key)
      requires Valid() && key in key2Index
      modifies this
      ensures Valid()
      ensures Contents() == old(Contents()).(order := [key] + Without(old(Contents()).order, key))
      ensures key in key2Index && key2Index[key].record == old(key2Index[key].record)
    {
      hide Linked, Records, Keys;
      SpliceFront(key2Index, keyCache, key);
      keyCache := [key2Index[key].iter] + Without(keyCache, key2Index[key].iter);
      key2Index := key2Index[key := key2Index[key].(iter := keyCache[0])];
    }
  }

  ghost function Keys(nodes: seq<ListNode>): (r: seq<Key>)
    ensures |r| == |nodes| && forall i :: 0 <= i < |r| ==> r[i] == nodes[i].key
  {
    seq(|nodes|, i requires 0 <= i < |nodes| => nodes[i].key)
  }

  ghost function Records(m: map<Key, CacheNode>): map<Key, Record> {
    map k <- m :: m[k].record
  }

  lemma {:induction false} RecordsOf(m: map<Key, CacheNode>)
    ensures forall k :: k in Records(m) <==> k in m
  {
  }

  ghost predicate Linked(m: map<Key, CacheNode>, nodes: seq<ListNode>) {
    && NoDuplicates(Keys(nodes))
    && (forall n <- nodes :: n.key in m && m[n.key].iter == n)
    && (forall k <- m :: m[k].iter in nodes && m[k].iter.key == k)
  }

  lemma {:induction false} RecordChange(m: map<Key, CacheNode>, nodes: seq<ListNode>, k: Key, r: Record)
    requires Linked(m, nodes) && k in m
    ensures Linked(m[k := m[k].(record := r)], nodes)
    ensures Records(m[k := m[k].(record := r)]) == Records(m)[k := r]
  {
  }

  lemma {:induction false} DropLast(m: map<Key, CacheNode>, nodes: seq<ListNode>)
    requires Linked(m, nodes) && nodes != []
    ensures var last := nodes[|nodes| - 1].key;
            && Linked(m - {last}, nodes[..|nodes| - 1])
            && Records(m - {last}) == Records(m) - {last}
            && Keys(nodes[..|nodes| - 1]) == Keys(nodes)[..|nodes| - 1]
            && Keys(nodes)[|nodes| - 1] == last
  {
    var rest, last := nodes[..|nodes| - 1], nodes[|nodes| - 1];
    assert Keys(rest) == Keys(nodes)[..|nodes| - 1];
    assert forall i :: 0 <= i < |rest| ==> Keys(nodes)[i] != Keys(nodes)[|nodes| - 1];
    assert forall n :: n in nodes ==> n == last || n in rest;
  }

  lemma {:induction false} PushFront(m: map<Key, CacheNode>, nodes: seq<ListNode>, n: ListNode, r: Record)
    requires Linked(m, nodes) && n.key !in m
    ensures Linked(m[n.key := CacheNode(n, r)], [n] + nodes)
    ensures Records(m[n.key := CacheNode(n, r)]) == Records(m)[n.key := r]
    ensures Keys([n] + nodes) == [n.key] + Keys(nodes)
  {
    assert Keys([n] + nodes) == [n.key] + Keys(nodes);
    assert forall i :: 0 <= i < |nodes| ==> nodes[i] in nodes;
  }

  /** Moving the node that the map stores for a key moves exactly that key. */
  lemma {:induction false} SpliceFront(m: map<Key, CacheNode>, nodes: seq<ListNode>, k: Key)
    requires Linked(m, nodes) && k in m
    ensures var n := m[k].iter;
            && Linked(m[k := m[k].(iter := n)], [n] + Without(nodes, n))
            && Keys([n] + Without(nodes, n)) == [k] + Without(Keys(nodes), k)
            && Records(m[k := m[k].(iter := n)]) == Records(m)
            && |Without(nodes, n)| == |nodes| - 1
  {
    var n := m[k].iter;
    var rest := Without(nodes, n);
    WithoutNode(nodes, n);
    assert Keys([n] + rest) == [k] + Keys(rest);
    assert m[k := m[k].(iter := n)] == m;
    assert forall i :: 0 <= i < |rest| ==> rest[i] in rest;
  }

  /** Unlinking a node removes exactly its key. */
  lemma {:induction false} WithoutNode(nodes: seq<ListNode>, n: ListNode)
    requires NoDuplicates(Keys(nodes)) && n in nodes
    ensures Keys(Without(nodes, n)) == Without(Keys(nodes), n.key)
    ensures NoDuplicates(Keys(Without(nodes, n)))
    ensures forall m :: m in nodes && m != n ==> m in Without(nodes, n)
    ensures forall m :: m in Without(nodes, n) ==> m.key != n.key
  {
    assert forall i :: 0 <= i < |nodes| ==> Keys(nodes)[i] == nodes[i].key;
    assert NoDuplicates(nodes);
    WithoutKeepsOrder(nodes, n);
    WithoutKeepsOrder(Keys(nodes), n.key);
    var at := WithoutIndex(nodes, n);
    assert Keys(nodes)[at] == n.key;
    var at' := WithoutIndex(Keys(nodes), n.key);
    assert at == at';
    var rest := Without(nodes, n);
    assert Keys(rest) == Without(Keys(nodes), n.key);
    forall m | m in rest
      ensures m.key != n.key
    {
      var i :| 0 <= i < |rest| && rest[i] == m;
      assert Keys(rest)[i] == m.key;
    }
  }
}
