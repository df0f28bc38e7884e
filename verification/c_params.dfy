/** The C front end of the writer: typed parameters with a numeric type tag and raw pointers. */
module CParams {
  import opened ByteStrings
  import opened Def
  import opened WireFormat
  import opened EventBases
  import opened HiSysEvents

  /** What the union of a C parameter holds: a value, a null pointer where a string or an array is
      expected, or an array of strings with a null element. */
  datatype CValue = Content(value: KvValue) | NullPointer | NullElement

  datatype CParam = CParam(name: Bytes, t: nat, v: CValue)

  const TOTAL_APPEND_FUNC_SIZE: nat := 25
  const STRING_TAG: nat := 12

  /** The item kind that a tag stands for: tags 1 to 12 for single values, 13 to 24 for arrays. */
  function TagKind(t: nat): (r: Kind)
    requires 1 <= t < TOTAL_APPEND_FUNC_SIZE
  {
    var base := if t > STRING_TAG then t - STRING_TAG else t;
    if base == 12 then String
    else if base == 11 then Double
    else if base == 10 then Float
    else if base == 3 || base == 5 || base == 7 || base == 9 then Uint64
    else Int64
  }

  /** The numbering of the tags: bool, then the signed and unsigned widths in turn, float, double
      and string; the same once more for arrays. */
  lemma {:induction false} TagKindIs(t: nat)
    ensures (t == 1 || t == 2 || t == 4 || t == 6 || t == 8) ==> TagKind(t) == TagKind(t + 12) == Int64
    ensures (t == 3 || t == 5 || t == 7 || t == 9) ==> TagKind(t) == TagKind(t + 12) == Uint64
    ensures t == 10 ==> TagKind(t) == TagKind(t + 12) == Float
    ensures t == 11 ==> TagKind(t) == TagKind(t + 12) == Double
    ensures t == 12 ==> TagKind(t) == TagKind(t + 12) == String
  {
  }

  /** The union agrees with its tag. */
  predicate Agrees(p: CParam) {
    1 <= p.t < TOTAL_APPEND_FUNC_SIZE ==>
      match p.v
      case Content(Number(item)) => p.t < STRING_TAG && item.Kind() == TagKind(p.t)
      case Content(Str(_)) => p.t == STRING_TAG
      case Content(Numbers(kind, items)) =>
        STRING_TAG < p.t && kind == TagKind(p.t) && kind != String
        && forall item <- items :: item.Kind() == kind
      case Content(Strs(_)) => STRING_TAG < p.t && TagKind(p.t) == String
      case NullPointer => STRING_TAG <= p.t
      case NullElement => STRING_TAG < p.t && TagKind(p.t) == String
  }

  lemma {:induction false} AgreesValid(p: CParam)
    requires Agrees(p)
    ensures Usable(p) ==> p.v.value.Valid()
  {
  }

  predicate Usable(p: CParam) {
    1 <= p.t < TOTAL_APPEND_FUNC_SIZE && p.v.Content?
  }

  /** The pairs that the usable parameters stand for, in order. */
  function Pairs(ps: seq<CParam>): seq<KeyValue> {
    if ps == [] then []
    else (if Usable(ps[0]) then [KeyValue(ps[0].name, ps[0].v.value)] else []) + Pairs(ps[1..])
  }

  /** A parameter stands for a pair exactly when its tag is 1 to 24 and its pointers are not null;
      the order of the list is kept. */
  lemma {:induction false} PairsConcat(a: seq<CParam>, b: seq<CParam>, p: CParam)
    ensures Pairs(a + b) == Pairs(a) + Pairs(b)
    ensures Pairs([p]) == if 1 <= p.t <= 24 && p.v.Content? then [KeyValue(p.name, p.v.value)] else []
  {
    if a == [] {
      assert a + b == b;
    } else {
      assert (a + b)[1..] == a[1..] + b;
      PairsConcat(a[1..], b, p);
    }
  }

  /** An unusable parameter leaves the code for a bad value, whatever its name. */
  lemma {:induction false} UnusableWarning(p: CParam, n: nat)
    requires p.t == 0 || p.t > 24 || p.v.NullPointer? || p.v.NullElement?
    ensures CWarnings(p, n) == [5]
  {
  }

  lemma {:induction false} PairsValid(ps: seq<CParam>)
    requires forall p <- ps :: Agrees(p)
    ensures AllValid(Pairs(ps))
  {
    if ps != [] {
      assert Agrees(ps[0]);
      PairsValid(ps[1..]);
    }
  }

  function CWarnings(p: CParam, n: nat): seq<int> {
    if Usable(p) then Warnings(KeyValue(p.name, p.v.value), n) else [ERR_VALUE_INVALID]
  }

  function AllCWarnings(ps: seq<CParam>, n: nat): seq<int> {
    if ps == [] then []
    else CWarnings(ps[0], n) + AllCWarnings(ps[1..], if CAccepts(ps[0], n) then n + 1 else n)
  }

  predicate CAccepts(p: CParam, n: nat) {
    Usable(p) && Accepts(KeyValue(p.name, p.v.value), n)
  }

  /** Without unusable parameters the C front end raises the warnings of the C++ one. */
  lemma {:induction false} SameWarnings(ps: seq<CParam>, n: nat)
    requires forall p <- ps :: Usable(p)
    ensures AllCWarnings(ps, n) == AllWarnings(Pairs(ps), n)
  {
    if ps != [] {
      assert Usable(ps[0]);
      var kv := KeyValue(ps[0].name, ps[0].v.value);
      assert Pairs(ps) == [kv] + Pairs(ps[1..]);
      SameWarnings(ps[1..], if Accepts(kv, n) then n + 1 else n);
    }
  }

  lemma {:induction false} Outcome(p: CParam, n: nat, code: int)
    requires Agrees(p)
    ensures Usable(p) ==> p.v.value.Valid()
    ensures if Usable(p) then
              var kv := KeyValue(p.name, p.v.value);
              Added(p, n) == (if Accepts(kv, n) then [ToParam(kv)] else []) && CWarnings(p, n) == Warnings(kv, n)
            else Added(p, n) == [] && LastOr(CWarnings(p, n), code) == ERR_VALUE_INVALID
  {
    hide Warnings, ToParam, Accepts;
    AgreesValid(p);
  }

  /** The dispatch on the tag: out-of-range tags, null pointers and null elements are refused
      before the key is looked at; everything else goes the way of the C++ overloads. */
  method AppendParam(eventBase: EventBase, p: CParam)
    requires eventBase.Valid() && Agrees(p)
    modifies eventBase`retCode, eventBase`paramCnt, eventBase`params, eventBase`complete
    modifies eventBase.Footprint()
    ensures eventBase.Valid() && eventBase.rawData == old(eventBase.rawData)
    ensures fresh(eventBase.Footprint() - old(eventBase.Footprint()))
    ensures old(eventBase.Sound()) ==> eventBase.Sound()
    ensures old(eventBase.Sound()) ==>
              eventBase.params == old(eventBase.params) + Added(p, |old(eventBase.params)|)
    ensures eventBase.retCode == LastOr(CWarnings(p, |old(eventBase.params)|), old(eventBase.retCode))
  {
    Outcome(p, |eventBase.params|, eventBase.retCode);
    hide Added, CWarnings, LastOr, Warnings, ToParam, ValidKey, HasLayout, Agrees, Accepts, KvValue.Valid,
         EventBase.Valid, EventBase.Sound, EventBase.Footprint;
    if p.t == 0 || p.t >= TOTAL_APPEND_FUNC_SIZE {
      eventBase.SetRetCode(ERR_VALUE_INVALID);
      OnlyRetCode(eventBase);
      return;
    }
    match p.v
    case Content(value) =>
      WritePair(eventBase, KeyValue(p.name, value));
    case _ =>
      eventBase.SetRetCode(ERR_VALUE_INVALID);
      OnlyRetCode(eventBase);
  }

  /** What is written so far and what the parameters still to come add is the target. */
  ghost predicate OnTheWay(params: seq<Param>, code: int, todo: seq<CParam>,
                           target: seq<Param>, targetCode: int)
  {
    && |params| <= MAX_PARAM_NUMBER && AllValid(Pairs(todo))
    && params + Selected(Pairs(todo), |params|) == target
    && LastOr(AllCWarnings(todo, |params|), code) == targetCode
  }

  function Added(p: CParam, n: nat): seq<Param>
    requires CAccepts(p, n) ==> p.v.value.Valid()
  {
    if CAccepts(p, n) then [ToParam(KeyValue(p.name, p.v.value))] else []
  }

  lemma {:induction false} OneStep(params: seq<Param>, code: int, todo: seq<CParam>,
                                   target: seq<Param>, targetCode: int)
    requires todo != [] && OnTheWay(params, code, todo, target, targetCode)
    ensures CAccepts(todo[0], |params|) ==> todo[0].v.value.Valid()
    ensures OnTheWay(params + Added(todo[0], |params|), LastOr(CWarnings(todo[0], |params|), code),
                     todo[1..], target, targetCode)
  {
    hide Selected, CWarnings, ToParam, CAccepts, LastOr, Pairs, AllValid;
    var n := |params|;
    CStep(todo, n);
    var k := if CAccepts(todo[0], n) then n + 1 else n;
    LastOrTwice(CWarnings(todo[0], n), AllCWarnings(todo[1..], k), code);
    assert params + Added(todo[0], n) + Selected(Pairs(todo[1..]), k)
        == params + (Added(todo[0], n) + Selected(Pairs(todo[1..]), k));
  }

  lemma {:induction false} Arrived(params: seq<Param>, code: int, target: seq<Param>, targetCode: int)
    requires OnTheWay(params, code, [], target, targetCode)
    ensures params == target && code == targetCode
  {
  }

  /** Appends the parameters in order. The message gets exactly what the C++ front end would write
      for the usable ones, and the code is the last warning of all of them. */
  method InnerWrite(eventBase: EventBase, ps: seq<CParam>)
    requires eventBase.Valid()
    requires |eventBase.params| <= MAX_PARAM_NUMBER && forall p <- ps :: Agrees(p)
    modifies eventBase`retCode, eventBase`paramCnt, eventBase`params, eventBase`complete
    modifies eventBase.Footprint()
    ensures eventBase.Valid() && eventBase.rawData == old(eventBase.rawData)
    ensures fresh(eventBase.Footprint() - old(eventBase.Footprint()))
    ensures AllValid(Pairs(ps))
    ensures old(eventBase.Sound()) ==>
              && eventBase.Sound()
              && eventBase.params == old(eventBase.params) + Selected(Pairs(ps), |old(eventBase.params)|)
              && eventBase.retCode == LastOr(AllCWarnings(ps, |old(eventBase.params)|), old(eventBase.retCode))
  {
    PairsValid(ps);
    hide Selected, CWarnings, AllCWarnings, ToParam, CAccepts, Pairs, LastOr, Agrees, OnTheWay,
         EventBase.Valid, EventBase.Sound;
    ghost var target := eventBase.params + Selected(Pairs(ps), |eventBase.params|);
    ghost var targetCode := LastOr(AllCWarnings(ps, |eventBase.params|), eventBase.retCode);
    Starting(eventBase.params, eventBase.retCode, ps);
    assert ps[0..] == ps;
    for i := 0 to |ps|
      invariant eventBase.Valid() && eventBase.rawData == old(eventBase.rawData)
      invariant fresh(eventBase.Footprint() - old(eventBase.Footprint()))
      invariant old(eventBase.Sound()) ==>
                  eventBase.Sound() && OnTheWay(eventBase.params, eventBase.retCode, ps[i..], target, targetCode)
    {
      if old(eventBase.Sound()) {
        OneStep(eventBase.params, eventBase.retCode, ps[i..], target, targetCode);
      }
      assert ps[i..][1..] == ps[i + 1..] && ps[i..][0] == ps[i];
      AppendParam(eventBase, ps[i]);
    }
    assert ps[|ps|..] == [];
    if old(eventBase.Sound()) {
      Arrived(eventBase.params, eventBase.retCode, target, targetCode);
    }
  }

  lemma {:induction false} Starting(params: seq<Param>, code: int, ps: seq<CParam>)
    requires |params| <= MAX_PARAM_NUMBER && AllValid(Pairs(ps))
    ensures OnTheWay(params, code, ps, params + Selected(Pairs(ps), |params|),
                     LastOr(AllCWarnings(ps, |params|), code))
  {
  }

  lemma {:induction false} CStep(ps: seq<CParam>, n: nat)
    requires ps != [] && n <= MAX_PARAM_NUMBER && AllValid(Pairs(ps))
    ensures AllValid(Pairs(ps[1..]))
    ensures n < MAX_PARAM_NUMBER || !CAccepts(ps[0], n)
    ensures CAccepts(ps[0], n) ==> ps[0].v.Content? && ps[0].v.value.Valid()
    ensures Selected(Pairs(ps), n) ==
            if CAccepts(ps[0], n)
            then [ToParam(KeyValue(ps[0].name, ps[0].v.value))] + Selected(Pairs(ps[1..]), n + 1)
            else Selected(Pairs(ps[1..]), n)
  {
    hide Selected, ToParam, ValidKey;
    if Usable(ps[0]) {
      var kv := KeyValue(ps[0].name, ps[0].v.value);
      assert Pairs(ps) == [kv] + Pairs(ps[1..]);
      assert Pairs(ps)[0] == kv && Pairs(ps)[1..] == Pairs(ps[1..]);
      SelectedStep(Pairs(ps), n);
      assert kv in Pairs(ps);
    } else {
      assert Pairs(ps) == Pairs(ps[1..]);
    }
  }
}
