/** Writing an event: which key-value pairs get into the message, and the return code. */
module HiSysEvents {
  import opened ByteStrings
  import opened Def
  import opened WireFormat
  import opened EncodedParams
  import opened EventFormat
  import opened EventBases
  import opened StringFilters

  /** What a caller passes for a key: a number, a string, or a vector of either. Integers of every
      width and `bool` are values here. */
  datatype KvValue =
    | Number(item: Item)
    | Str(text: Bytes)
    | Numbers(kind: Kind, items: seq<Item>)
    | Strs(texts: seq<Bytes>)
  {
    predicate Valid() {
      match this
      case Number(item) => !item.Text?
      case Str(_) => true
      case Numbers(kind, items) => kind != String && forall item <- items :: item.Kind() == kind
      case Strs(_) => true
    }
  }

  datatype KeyValue = KeyValue(key: Bytes, value: KvValue)

  // ---------- which pairs are written, and as what

  function EscapedTexts(texts: seq<Bytes>): (r: seq<Item>)
    ensures |r| == |texts| && forall i :: 0 <= i < |texts| ==> r[i] == Text(Escape(texts[i]))
  {
    seq(|texts|, i requires 0 <= i < |texts| => Text(Escape(texts[i])))
  }

  /** Strings are escaped, and every empty vector becomes an empty signed array. */
  function Given(v: KvValue): (r: Value)
    requires v.Valid()
    ensures r.Valid()
  {
    match v
    case Number(item) => Scalar(item)
    case Str(text) => Scalar(Text(Escape(text)))
    case Numbers(kind, items) => if items == [] then Array(Int64, []) else Array(kind, items)
    case Strs(texts) => if texts == [] then Array(Int64, []) else Array(String, EscapedTexts(texts))
  }

  function ToParam(kv: KeyValue): (r: Param)
    requires kv.value.Valid()
    ensures r.value.Valid()
  {
    Param(kv.key, Stored(Given(kv.value)))
  }

  predicate ValidKey(kv: KeyValue) {
    IsName(kv.key, MAX_PARAM_NAME_LENGTH)
  }

  predicate AllValid(kvs: seq<KeyValue>) {
    forall kv <- kvs :: kv.value.Valid()
  }

  /** The pairs with a valid key, in order. */
  function ValidPairs(kvs: seq<KeyValue>): (r: seq<KeyValue>)
    ensures AllValid(kvs) ==> AllValid(r)
    ensures |r| <= |kvs|
  {
    if kvs == [] then []
    else (if ValidKey(kvs[0]) then [kvs[0]] else []) + ValidPairs(kvs[1..])
  }

  function First<T>(s: seq<T>, n: int): seq<T> {
    if n <= 0 then [] else if n < |s| then s[..n] else s
  }

  function ToParams(kvs: seq<KeyValue>): (r: seq<Param>)
    requires AllValid(kvs)
    ensures |r| == |kvs| && forall i :: 0 <= i < |kvs| ==> r[i] == ToParam(kvs[i])
  {
    seq(|kvs|, i requires 0 <= i < |kvs| => ToParam(kvs[i]))
  }

  /** The parameters that a list of pairs adds to a message that already has `n` of them. */
  function Selected(kvs: seq<KeyValue>, n: nat): (r: seq<Param>)
    requires AllValid(kvs)
  {
    ToParams(First(ValidPairs(kvs), MAX_PARAM_NUMBER - n))
  }

  // ---------- warnings

  function LengthWarning(text: Bytes): seq<int> {
    if |text| > MAX_STRING_LENGTH then [ERR_VALUE_LENGTH_TOO_LONG] else []
  }

  function LengthWarnings(texts: seq<Bytes>): seq<int> {
    if texts == [] then [] else LengthWarning(texts[0]) + LengthWarnings(texts[1..])
  }

  function SizeWarning(size: nat): seq<int> {
    if size > MAX_ARRAY_SIZE then [ERR_ARRAY_TOO_MUCH] else []
  }

  function ValueWarnings(v: KvValue): seq<int> {
    match v
    case Number(_) => []
    case Str(text) => LengthWarning(text)
    case Numbers(_, items) => SizeWarning(|items|)
    case Strs(texts) => SizeWarning(|texts|) + LengthWarnings(texts)
  }

  predicate Accepts(kv: KeyValue, n: nat) {
    ValidKey(kv) && n < MAX_PARAM_NUMBER
  }

  /** The warnings for one pair when the message already has `n` parameters. */
  function Warnings(kv: KeyValue, n: nat): seq<int> {
    if !ValidKey(kv) then [ERR_KEY_NAME_INVALID]
    else if n >= MAX_PARAM_NUMBER then [ERR_KEY_NUMBER_TOO_MUCH]
    else ValueWarnings(kv.value)
  }

  function AllWarnings(kvs: seq<KeyValue>, n: nat): seq<int> {
    if kvs == [] then []
    else Warnings(kvs[0], n) + AllWarnings(kvs[1..], if Accepts(kvs[0], n) then n + 1 else n)
  }

  function LastOr(warnings: seq<int>, otherwise: int): int {
    if warnings == [] then otherwise else warnings[|warnings| - 1]
  }

  lemma {:induction false} LastOrTwice(a: seq<int>, b: seq<int>, code: int)
    ensures LastOr(b, LastOr(a, code)) == LastOr(a + b, code)
  {
  }

  predicate WithinLimits(v: KvValue) {
    match v
    case Number(_) => true
    case Str(text) => |text| <= 262144
    case Numbers(_, items) => |items| <= 100
    case Strs(texts) => |texts| <= 100 && forall t <- texts :: |t| <= 262144
  }

  lemma {:induction false} LengthWarningsMeaning(texts: seq<Bytes>)
    ensures LengthWarnings(texts) == [] <==> forall t <- texts :: |t| <= MAX_STRING_LENGTH
    ensures forall w <- LengthWarnings(texts) :: w == ERR_VALUE_LENGTH_TOO_LONG
  {
    if texts != [] {
      LengthWarningsMeaning(texts[1..]);
      assert forall t :: t in texts <==> t == texts[0] || t in texts[1..];
    }
  }

  /** Which warning a pair leaves: for a bad key, for a full message, and otherwise for its value,
      where a text that is too long is reported after an array that is. */
  lemma {:induction false} WarningIs(kv: KeyValue, n: nat)
    ensures !IsName(kv.key, 48) ==> Warnings(kv, n) == [1]
    ensures IsName(kv.key, 48) && n >= 128 ==> Warnings(kv, n) == [3]
    ensures IsName(kv.key, 48) && n < 128 ==>
              match kv.value
              case Number(_) => Warnings(kv, n) == []
              case Str(text) => Warnings(kv, n) == if |text| > 262144 then [2] else []
              case Numbers(_, items) => Warnings(kv, n) == if |items| > 100 then [4] else []
              case Strs(texts) =>
                LastOr(Warnings(kv, n), 0) ==
                if exists t <- texts :: |t| > 262144 then 2 else if |texts| > 100 then 4 else 0
  {
    hide IsName;
    if kv.value.Strs? {
      var texts := kv.value.texts;
      LengthWarningsMeaning(texts);
      var ws := LengthWarnings(texts);
      assert ws != [] ==> ws[|ws| - 1] in ws;
    }
  }

  lemma {:induction false} WarningsMeaning(kv: KeyValue, n: nat)
    ensures Warnings(kv, n) == [] <==> Accepts(kv, n) && WithinLimits(kv.value)
    ensures forall w <- Warnings(kv, n) :: 1 <= w <= 4
  {
    if kv.value.Strs? {
      LengthWarningsMeaning(kv.value.texts);
    }
  }

  /** No warning is raised exactly when every key is valid, all pairs fit, and every value is
      within its limit; a raised code is one of the four positive warnings. */
  lemma {:induction false} NoWarningMeaning(kvs: seq<KeyValue>, n: nat)
    requires n <= MAX_PARAM_NUMBER
    ensures AllWarnings(kvs, n) == [] <==>
            (forall kv <- kvs :: IsName(kv.key, 48) && WithinLimits(kv.value)) && n + |kvs| <= 128
    ensures forall w <- AllWarnings(kvs, n) :: 1 <= w <= 4
  {
    hide Warnings, WithinLimits, IsName;
    if kvs != [] {
      var k := if Accepts(kvs[0], n) then n + 1 else n;
      WarningsMeaning(kvs[0], n);
      NoWarningMeaning(kvs[1..], k);
      assert forall kv :: kv in kvs <==> kv == kvs[0] || kv in kvs[1..];
      assert AllWarnings(kvs, n) == Warnings(kvs[0], n) + AllWarnings(kvs[1..], k);
    }
  }

  /** Exactly the valid pairs are written when there are at most 128 of them, and never more. */
  lemma {:induction false} SelectedLength(kvs: seq<KeyValue>, n: nat)
    requires AllValid(kvs) && n <= MAX_PARAM_NUMBER
    ensures n + |Selected(kvs, n)| <= 128
    ensures n + |ValidPairs(kvs)| <= 128 ==> Selected(kvs, n) == ToParams(ValidPairs(kvs))
  {
  }

  lemma {:induction false} SelectedStep(kvs: seq<KeyValue>, n: nat)
    requires kvs != [] && AllValid(kvs) && n <= MAX_PARAM_NUMBER
    ensures AllValid(kvs[1..])
    ensures Selected(kvs, n) ==
            if Accepts(kvs[0], n) then [ToParam(kvs[0])] + Selected(kvs[1..], n + 1)
            else Selected(kvs[1..], n)
  {
    hide ToParam, ValidKey, First;
    var rest := ValidPairs(kvs[1..]);
    FirstStep(kvs[0], rest, MAX_PARAM_NUMBER - n);
    if ValidKey(kvs[0]) {
      assert ValidPairs(kvs) == [kvs[0]] + rest;
      if n < MAX_PARAM_NUMBER {
        var left := First(rest, MAX_PARAM_NUMBER - n - 1);
        assert AllValid([kvs[0]] + left) ==> ToParams([kvs[0]] + left) == [ToParam(kvs[0])] + ToParams(left);
      }
    } else {
      assert ValidPairs(kvs) == rest;
    }
  }

  lemma {:induction false} FirstStep<T>(x: T, rest: seq<T>, n: int)
    ensures n > 0 ==> First([x] + rest, n) == [x] + First(rest, n - 1)
    ensures n <= 0 ==> First([x] + rest, n) == First(rest, n) == []
    ensures forall y <- First(rest, n - 1) :: y in rest
  {
  }

  // ---------- the writer

  method CheckKey(key: Bytes) returns (r: int)
    ensures r == if IsName(key, MAX_PARAM_NAME_LENGTH) then SUCCESS else ERR_KEY_NAME_INVALID
  {
    var filter := StringFilter.GetInstance();
    var valid := filter.IsValidName(key, MAX_PARAM_NAME_LENGTH);
    return if !valid then ERR_KEY_NAME_INVALID else SUCCESS;
  }

  method IsWarnAndUpdate(retCode: int, eventBase: EventBase) returns (warned: bool)
    modifies eventBase`retCode
    ensures warned <==> retCode != SUCCESS
    ensures eventBase.retCode == if warned then retCode else old(eventBase.retCode)
  {
    if retCode != SUCCESS {
      eventBase.SetRetCode(retCode);
      return true;
    }
    return false;
  }

  method CheckParamValidity(eventBase: EventBase, key: Bytes) returns (ok: bool)
    requires eventBase.Valid()
    modifies eventBase`retCode
    ensures eventBase.Valid() && eventBase.Sound() == old(eventBase.Sound())
    ensures eventBase.Footprint() == old(eventBase.Footprint())
    ensures ok <==> IsName(key, MAX_PARAM_NAME_LENGTH) && |eventBase.params| < MAX_PARAM_NUMBER
    ensures eventBase.retCode ==
            if !IsName(key, MAX_PARAM_NAME_LENGTH) then ERR_KEY_NAME_INVALID
            else if !ok then ERR_KEY_NUMBER_TOO_MUCH
            else old(eventBase.retCode)
  {
    var r := CheckKey(key);
    var warned := IsWarnAndUpdate(r, eventBase);
    if warned {
      return false;
    }
    var cnt := eventBase.GetParamCnt();
    if cnt >= MAX_PARAM_NUMBER {
      eventBase.SetRetCode(ERR_KEY_NUMBER_TOO_MUCH);
      return false;
    }
    return true;
  }

  method CheckTexts(eventBase: EventBase, texts: seq<Bytes>) returns (rawStrs: seq<Item>)
    modifies eventBase`retCode
    ensures rawStrs == EscapedTexts(texts)
    ensures eventBase.retCode == LastOr(LengthWarnings(texts), old(eventBase.retCode))
  {
    rawStrs := [];
    for i := 0 to |texts|
      invariant rawStrs == EscapedTexts(texts[..i])
      invariant LastOr(LengthWarnings(texts[i..]), eventBase.retCode)
             == LastOr(LengthWarnings(texts), old(eventBase.retCode))
    {
      assert texts[i..][1..] == texts[i + 1..];
      LastOrTwice(LengthWarning(texts[i]), LengthWarnings(texts[i + 1..]), eventBase.retCode);
      var _ := IsWarnAndUpdate(if |texts[i]| > MAX_STRING_LENGTH then ERR_VALUE_LENGTH_TOO_LONG else SUCCESS,
                               eventBase);
      var filter := StringFilter.GetInstance();
      var rawStr := filter.EscapeToRaw(texts[i]);
      rawStrs := rawStrs + [Text(rawStr)];
    }
    assert texts[..|texts|] == texts;
  }

  /** The size and length checks of an accepted pair; they only set the return code. */
  method CheckValue(eventBase: EventBase, v: KvValue) returns (given: Value)
    requires v.Valid()
    modifies eventBase`retCode
    ensures given == Given(v)
    ensures eventBase.retCode == LastOr(ValueWarnings(v), old(eventBase.retCode))
  {
    match v
    case Number(item) =>
      given := Scalar(item);
    case Str(text) =>
      var _ := IsWarnAndUpdate(if |text| > MAX_STRING_LENGTH then ERR_VALUE_LENGTH_TOO_LONG else SUCCESS,
                               eventBase);
      var filter := StringFilter.GetInstance();
      var rawStr := filter.EscapeToRaw(text);
      given := Scalar(Text(rawStr));
    case Numbers(kind, items) =>
      if items == [] {
        return Array(Int64, []);
      }
      var _ := IsWarnAndUpdate(if |items| > MAX_ARRAY_SIZE then ERR_ARRAY_TOO_MUCH else SUCCESS, eventBase);
      given := Array(kind, items);
    case Strs(texts) =>
      if texts == [] {
        return Array(Int64, []);
      }
      var _ := IsWarnAndUpdate(if |texts| > MAX_ARRAY_SIZE then ERR_ARRAY_TOO_MUCH else SUCCESS, eventBase);
      LastOrTwice(SizeWarning(|texts|), LengthWarnings(texts), old(eventBase.retCode));
      var rawStrs := CheckTexts(eventBase, texts);
      given := Array(String, rawStrs);
  }

  /** The return code is no part of the invariant. */
  twostate lemma {:induction false} OnlyRetCode(e: EventBase)
    requires old(e.Valid())
    requires unchanged(e`paramCnt, e`paramCntWroteOffset, e`header, e`traceInfo, e`rawData, e`params, e`laidOut, e`complete)
    requires e.rawData != null ==> unchanged(e.rawData) && (e.rawData.data != null ==> unchanged(e.rawData.data))
    ensures e.Valid() && e.Sound() == old(e.Sound()) && e.Footprint() == old(e.Footprint())
  {
    hide HasLayout, ParamsBytes;
  }

  lemma {:induction false} PairOutcome(kv: KeyValue, n: nat, code: int)
    requires kv.value.Valid()
    ensures ToParam(kv) == Param(kv.key, Stored(Given(kv.value)))
    ensures Accepts(kv, n) <==> IsName(kv.key, MAX_PARAM_NAME_LENGTH) && n < MAX_PARAM_NUMBER
    ensures LastOr(Warnings(kv, n), code) ==
            if !IsName(kv.key, MAX_PARAM_NAME_LENGTH) then ERR_KEY_NAME_INVALID
            else if n >= MAX_PARAM_NUMBER then ERR_KEY_NUMBER_TOO_MUCH
            else LastOr(ValueWarnings(kv.value), code)
  {
  }

  /** One `InnerWrite` overload: checks the pair, then appends it or leaves the message as it is. */
  method WritePair(eventBase: EventBase, kv: KeyValue)
    requires eventBase.Valid() && kv.value.Valid()
    modifies eventBase`retCode, eventBase`paramCnt, eventBase`params, eventBase`complete
    modifies eventBase.Footprint()
    ensures eventBase.Valid() && eventBase.rawData == old(eventBase.rawData)
    ensures fresh(eventBase.Footprint() - old(eventBase.Footprint()))
    ensures old(eventBase.Sound()) ==> eventBase.Sound()
    ensures |eventBase.params| <= MAX_PARAM_NUMBER || |eventBase.params| == |old(eventBase.params)|
    ensures old(eventBase.Sound()) ==>
              (eventBase.params ==
               old(eventBase.params) + (if Accepts(kv, |old(eventBase.params)|) then [ToParam(kv)] else []))
    ensures eventBase.retCode == LastOr(Warnings(kv, |old(eventBase.params)|), old(eventBase.retCode))
  {
    PairOutcome(kv, |eventBase.params|, eventBase.retCode);
    hide IsName, ValueWarnings, Warnings, LastOr, Accepts, Given, Stored, HasLayout, ParamBytes, ParamsBytes,
         ToParam, EventBase.Valid, EventBase.Sound, EventBase.Footprint;
    var ok := CheckParamValidity(eventBase, kv.key);
    if !ok {
      return;
    }
    label Checked:
    var given := CheckValue(eventBase, kv.value);
    OnlyRetCode@Checked(eventBase);
    AppendGiven(eventBase, kv.key, given);
  }

  method AppendGiven(eventBase: EventBase, key: Bytes, given: Value)
    requires eventBase.Valid() && given.Valid()
    modifies eventBase`paramCnt, eventBase`params, eventBase`complete, eventBase.Footprint()
    ensures eventBase.Valid() && eventBase.rawData == old(eventBase.rawData)
    ensures fresh(eventBase.Footprint() - old(eventBase.Footprint()))
    ensures |eventBase.params| <= |old(eventBase.params)| + 1
    ensures old(eventBase.Sound()) ==>
              eventBase.Sound() && eventBase.params == old(eventBase.params) + [Param(key, Stored(given))]
  {
    hide ParamBytes, ParamsBytes, Stored, EventBase.Valid, EventBase.Sound;
    var param := new EncodedParam(key, given);
    eventBase.AppendParam(param);
  }

  /** The variadic `InnerWrite`: one pair, then the rest of the pack. */
  method InnerWrite(eventBase: EventBase, kvs: seq<KeyValue>)
    requires eventBase.Valid() && AllValid(kvs)
    requires |eventBase.params| <= MAX_PARAM_NUMBER
    modifies eventBase`retCode, eventBase`paramCnt, eventBase`params, eventBase`complete
    modifies eventBase.Footprint()
    ensures eventBase.Valid() && eventBase.rawData == old(eventBase.rawData)
    ensures |eventBase.params| <= MAX_PARAM_NUMBER
    ensures fresh(eventBase.Footprint() - old(eventBase.Footprint()))
    ensures old(eventBase.Sound()) ==> eventBase.Sound()
    ensures old(eventBase.Sound()) ==>
              eventBase.params == old(eventBase.params) + Selected(kvs, |old(eventBase.params)|)
    ensures old(eventBase.Sound()) ==>
              eventBase.retCode == LastOr(AllWarnings(kvs, |old(eventBase.params)|), old(eventBase.retCode))
    ensures old(eventBase.retCode) >= SUCCESS ==> eventBase.retCode >= SUCCESS
    decreases |kvs|
  {
    hide Selected, Warnings, ToParam, ValidKey, LastOr, EventBase.Valid, EventBase.Sound;
    ghost var n, code := |eventBase.params|, eventBase.retCode;
    if kvs == [] {
      NothingSelected(n);
      assert LastOr([], code) == code by { NoneOr(code); }
      return;
    }
    SelectedStep(kvs, n);
    NeverNegative(kvs[0], n, code);
    WritePair(eventBase, kvs[0]);
    ghost var k := |eventBase.params|;
    InnerWrite(eventBase, kvs[1..]);
    LastOrTwice(Warnings(kvs[0], n), AllWarnings(kvs[1..], k), code);
  }

  lemma {:induction false} NeverNegative(kv: KeyValue, n: nat, code: int)
    ensures code >= SUCCESS ==> LastOr(Warnings(kv, n), code) >= SUCCESS
  {
    hide Warnings;
    WarningsMeaning(kv, n);
    var ws := Warnings(kv, n);
    assert ws != [] ==> ws[|ws| - 1] in ws;
  }

  lemma {:induction false} NoneOr(code: int)
    ensures LastOr([], code) == code
  {
  }

  lemma {:induction false} NothingSelected(n: nat)
    ensures Selected([], n) == []
  {
  }

  /** Builds the message of an event. When no allocation fails, the message decodes to the header
      fields, the trace block and exactly the first 128 pairs with a valid key; the code is the
      last warning, or zero without one. */
  method Write(domain: Bytes, eventName: Bytes, eventType: int, timeStamp: U64, info: ProcessInfo,
               hitrace: Option<Trace>, canAlloc: nat -> bool, kvs: seq<KeyValue>)
    returns (code: int, message: Option<Bytes>)
    requires AllValid(kvs)
    ensures !IsName(domain, 16) ==> message.None? && code == ERR_DOMAIN_NAME_INVALID
    ensures IsName(domain, 16) && !IsName(eventName, 32) ==> message.None? && code == ERR_EVENT_NAME_INVALID
    ensures IsName(domain, 16) && IsName(eventName, 32) && message.None?
            ==> code == ERR_RAW_DATA_WROTE_EXCEPTION && exists n :: !canAlloc(n)
    ensures message.Some? ==> code >= SUCCESS && |message.value| >= 88
    ensures message.Some? && (forall n :: canAlloc(n)) ==> code == LastOr(AllWarnings(kvs, 0), SUCCESS)
    ensures message.Some? && (forall n :: canAlloc(n)) ==>
              DecodeMessage(message.value)
              == Got(Message(|message.value| % TWO_TO_THE_32,
                             Header(domain := domain, name := eventName, timestamp := timeStamp,
                                    timeZone := info.timeZone, uid := info.uid, pid := info.pid, tid := info.tid,
                                    id := 0, typeBits := (eventType - 1) % 4, isTraceOpened := hitrace.Some?),
                             hitrace, Selected(kvs, 0)), [])
  {
    hide DecodeMessage, MessageBytes, IsName, Selected, AllWarnings, LastOr, HasLayout;
    var eventBase := new EventBase(domain, eventName, eventType, timeStamp);
    if eventBase.retCode < SUCCESS {
      return eventBase.retCode, None;
    }
    eventBase.WritebaseInfo(info, hitrace, canAlloc);
    if eventBase.retCode < SUCCESS {
      return eventBase.retCode, None;
    }
    InnerWrite(eventBase, kvs);
    var data := eventBase.GetEventRawData();
    SelectedLength(kvs, 0);
    assert [] + Selected(kvs, 0) == Selected(kvs, 0);
    if forall n :: canAlloc(n) {
      MessageRoundTrip(eventBase.header, eventBase.TraceBlock(), eventBase.params);
    }
    code := eventBase.retCode;
    message := Some(data.data[..data.len]);
  }
}
