/** The object that builds one event message in a growing buffer. */
module EventBases {
  import opened ByteStrings
  import opened Def
  import opened RawDataBuffer
  import opened RawDataEncoder
  import opened WireFormat
  import opened EncodedParams
  import opened EventFormat
  import opened StringFilters

  /** The fields of the header that are read from the running process. */
  datatype ProcessInfo = ProcessInfo(timeZone: Byte, uid: U32, pid: U32, tid: U32)

  const EMPTY_HEADER := Header([], [], 0, 0, 0, 0, 0, 0, 0, false)
  const EMPTY_TRACE := Trace(0, 0, 0, 0)

  /** The fixed part of a message, but for the two fields that are patched at the end. */
  ghost predicate HasLayout(s: Bytes, h: Header, trace: Option<Trace>, offset: nat)
    requires h.Valid()
    ensures HasLayout(s, h, trace, offset) ==> 84 <= offset && offset + 4 <= |s|
  {
    && offset == 84 + |OptionalTraceBytes(trace)| && offset + 4 <= |s|
    && s[4..offset] == HeaderBytes(h) + OptionalTraceBytes(trace)
  }

  class EventBase {
    var retCode: int
    var paramCnt: nat
    var paramCntWroteOffset: nat
    var header: Header
    var traceInfo: Trace
    var rawData: RawData?
    /** The parameters appended so far. */
    ghost var params: seq<Param>
    /** The fixed part of the message has been written. */
    ghost var laidOut: bool
    /** No parameter was left half-written by a failed allocation. */
    ghost var complete: bool

    function TraceBlock(): Option<Trace>
      reads this
    {
      if header.isTraceOpened then Some(traceInfo) else None
    }

    ghost predicate Valid()
      reads this, rawData, if rawData == null then {} else {rawData.data}
    {
      && header.Valid()
      && paramCnt == |params| && (forall p <- params :: p.value.Valid())
      && (rawData != null ==> rawData.Valid())
      && (laidOut ==>
            && rawData != null && rawData.data != null
            && HasLayout(rawData.Contents(), header, TraceBlock(), paramCntWroteOffset)
            && (complete ==> rawData.Contents()[paramCntWroteOffset + 4..] == ParamsBytes(params)))
    }

    ghost function Footprint(): set<object?>
      reads this, rawData
    {
      if rawData == null then {}
      else if rawData.data == null then {rawData}
      else {rawData, rawData.data}
    }

    /** The fixed part is there, every parameter was written in full, and no allocation fails. */
    ghost predicate Sound()
      reads this, rawData
    {
      laidOut && complete && rawData != null && rawData.Ready()
    }

    constructor (domain: Bytes, eventName: Bytes, eventType: int, timeStamp: U64)
      ensures Valid() && rawData == null && !laidOut && complete && params == []
      ensures !IsName(domain, MAX_DOMAIN_LENGTH) ==> retCode == ERR_DOMAIN_NAME_INVALID
      ensures IsName(domain, MAX_DOMAIN_LENGTH) && !IsName(eventName, MAX_EVENT_NAME_LENGTH)
              ==> retCode == ERR_EVENT_NAME_INVALID
      ensures IsName(domain, MAX_DOMAIN_LENGTH) && IsName(eventName, MAX_EVENT_NAME_LENGTH)
              ==> retCode == SUCCESS
                  && header == Header(domain, eventName, timeStamp, 0, 0, 0, 0, 0, (eventType - 1) % 4, false)
    {
      retCode := SUCCESS;
      paramCnt, paramCntWroteOffset := 0, 0;
      header, traceInfo, rawData := EMPTY_HEADER, EMPTY_TRACE, null;
      params, laidOut, complete := [], false, true;
      var filter := StringFilter.GetInstance();
      var validDomain := filter.IsValidName(domain, MAX_DOMAIN_LENGTH);
      var validName := filter.IsValidName(eventName, MAX_EVENT_NAME_LENGTH);
      if !validDomain {
        retCode := ERR_DOMAIN_NAME_INVALID;
      } else if !validName {
        retCode := ERR_EVENT_NAME_INVALID;
      } else {
        header := EMPTY_HEADER.(domain := domain, name := eventName,
                                typeBits := (eventType - 1) % 4, timestamp := timeStamp);
      }
    }

    method SetRetCode(code: int)
      modifies this`retCode
      ensures retCode == code
    {
      retCode := code;
    }

    /** Starts the message: block size placeholder, header, optional trace block, parameter count. */
    method WritebaseInfo(info: ProcessInfo, hitrace: Option<Trace>, canAlloc: nat -> bool)
      requires Valid() && rawData == null && !laidOut && complete && params == []
      requires !header.isTraceOpened
      modifies this
      ensures Valid() && complete && params == [] && rawData != null
      ensures fresh(Footprint())
      ensures retCode == if laidOut then old(retCode) else ERR_RAW_DATA_WROTE_EXCEPTION
      ensures header == old(header).(timeZone := info.timeZone, uid := info.uid, pid := info.pid,
                                     tid := info.tid, isTraceOpened := hitrace.Some?)
      ensures TraceBlock() == hitrace
      ensures (forall n :: canAlloc(n)) ==> Sound()
    {
      hide LittleEndian, HeaderBytes, TraceBytes, ParamsBytes;
      rawData := new RawData(canAlloc);
      header := header.(timeZone := info.timeZone, pid := info.pid, tid := info.tid, uid := info.uid);
      if hitrace.Some? {
        header := header.(isTraceOpened := true);
        traceInfo := hitrace.value;
      }
      var ok := AppendFixedPart();
      if !ok {
        SetRetCode(ERR_RAW_DATA_WROTE_EXCEPTION);
        return;
      }
      laidOut := true;
      FixedPart(LittleEndian(0, 4), HeaderBytes(header), OptionalTraceBytes(TraceBlock()),
                LittleEndian(paramCnt, 4));
    }

    method AppendFixedPart() returns (ok: bool)
      requires header.Valid() && rawData != null && rawData.Valid() && rawData.Contents() == []
      modifies this`paramCntWroteOffset, Footprint()
      ensures rawData == old(rawData) && rawData.Valid()
      ensures rawData.data == old(rawData.data) || fresh(rawData.data)
      ensures old(rawData.Ready()) ==> ok && rawData.Ready()
      ensures ok ==> paramCntWroteOffset == 84 + |OptionalTraceBytes(TraceBlock())|
      ensures ok ==> (rawData.Contents() == LittleEndian(0, 4) + HeaderBytes(header)
                      + OptionalTraceBytes(TraceBlock()) + LittleEndian(paramCnt, 4))
    {
      hide LittleEndian, HeaderBytes, OptionalTraceBytes;
      ok := AppendSizeAndHeader();
      if ok {
        ok := AppendTrace();
        if ok {
          assert rawData.Contents() == LittleEndian(0, 4) + HeaderBytes(header) + OptionalTraceBytes(TraceBlock());
          ok := AppendCount();
        }
      }
    }

    /** The parameter count placeholder, whose place is remembered. */
    method AppendCount() returns (ok: bool)
      requires rawData != null && rawData.Valid()
      modifies this`paramCntWroteOffset, Footprint()
      ensures rawData == old(rawData) && rawData.Valid()
      ensures rawData.data == old(rawData.data) || fresh(rawData.data)
      ensures old(rawData.Ready()) ==> ok && rawData.Ready()
      ensures paramCntWroteOffset == |old(rawData.Contents())|
      ensures ok ==> rawData.Contents() == old(rawData.Contents()) + LittleEndian(paramCnt, 4)
    {
      hide LittleEndian;
      paramCntWroteOffset := rawData.GetDataLength();
      ok := rawData.Append(LittleEndian(paramCnt, 4));
    }

    method AppendSizeAndHeader() returns (ok: bool)
      requires header.Valid() && rawData != null && rawData.Valid()
      modifies Footprint()
      ensures rawData == old(rawData) && rawData.Valid()
      ensures rawData.data == old(rawData.data) || fresh(rawData.data)
      ensures old(rawData.Ready()) ==> ok && rawData.Ready()
      ensures ok ==> rawData.Contents() == old(rawData.Contents()) + LittleEndian(0, 4) + HeaderBytes(header)
    {
      hide LittleEndian, HeaderBytes;
      ok := rawData.Append(LittleEndian(0, 4));
      if ok {
        ok := rawData.Append(HeaderBytes(header));
      }
    }

    method AppendTrace() returns (ok: bool)
      requires rawData != null && rawData.Valid()
      modifies Footprint()
      ensures rawData == old(rawData) && rawData.Valid()
      ensures rawData.data == old(rawData.data) || fresh(rawData.data)
      ensures old(rawData.Ready()) ==> ok && rawData.Ready()
      ensures ok ==> rawData.Contents() == old(rawData.Contents()) + OptionalTraceBytes(TraceBlock())
    {
      hide TraceBytes;
      ok := true;
      if header.isTraceOpened {
        ok := rawData.Append(TraceBytes(traceInfo));
      }
    }

    /** Appends one parameter and counts it when all of it was written. */
    method AppendParam(param: EncodedParam?)
      requires Valid() && (param != null ==> param.value.Valid())
      modifies this`paramCnt, this`params, this`complete, param, Footprint()
      ensures Valid() && rawData == old(rawData) && laidOut == old(laidOut)
      ensures fresh(Footprint() - old(Footprint()))
      ensures param == null ==> params == old(params) && complete == old(complete)
      ensures param != null ==>
              || (params == old(params) + [Param(param.key, param.value)] && complete == old(complete))
              || (params == old(params) && !complete && !old(Sound()))
      ensures param != null && rawData != null ==>
                Extends(old(rawData.Contents()), rawData.Contents(), ParamBytes(Param(param.key, param.value)),
                        params != old(params))
      ensures old(Sound()) ==> Sound()
      ensures |params| <= |old(params)| + 1
    {
      hide ParamBytes, ParamsBytes, Extends, HeaderBytes, OptionalTraceBytes;
      if param == null {
        return;
      }
      param.SetRawData(rawData);
      var encoded := param.Encode();
      ghost var p := Param(param.key, param.value);
      if laidOut {
        Appended(old(rawData.Contents()), rawData.Contents(), paramCntWroteOffset, params, p, encoded);
      }
      if encoded {
        paramCnt := paramCnt + 1;
        params := params + [p];
      } else {
        complete := false;
      }
    }

    method GetParamCnt() returns (r: nat)
      requires Valid()
      ensures r == |params|
    {
      return paramCnt;
    }

    /** Patches the block size and the parameter count into the buffer and hands it out; no other
        byte changes. */
    method GetEventRawData() returns (r: RawData?)
      requires Valid()
      modifies Footprint()
      ensures Valid() && r == rawData == old(rawData)
      ensures fresh(Footprint() - old(Footprint()))
      ensures laidOut ==> r != null && |r.Contents()| == |old(rawData.Contents())|
      ensures laidOut ==>
        forall i :: 4 <= i < |r.Contents()| && (i < paramCntWroteOffset || paramCntWroteOffset + 4 <= i)
                    ==> r.Contents()[i] == old(rawData.Contents())[i]
      ensures laidOut ==>
                r.Contents() == Splice(Splice(old(rawData.Contents()), LittleEndian(|old(rawData.Contents())|, 4), 0),
                                       LittleEndian(|params|, 4), paramCntWroteOffset)
      ensures laidOut && complete ==> r != null && r.Contents() == MessageBytes(header, TraceBlock(), params)
      ensures old(Sound()) ==> Sound()
    {
      hide LittleEndian, HeaderBytes, OptionalTraceBytes, ParamsBytes, MessageBytes, Splice;
      if rawData != null {
        var blockSize := rawData.GetDataLength();
        ghost var s := rawData.Contents();
        ghost var size, count := LittleEndian(blockSize, 4), LittleEndian(paramCnt, 4);
        var _ := rawData.Update(Some(LittleEndian(blockSize, 4)), 0);
        ghost var s1 := rawData.Contents();
        assert laidOut ==> s1 == Splice(s, size, 0);
        var _ := rawData.Update(Some(LittleEndian(paramCnt, 4)), paramCntWroteOffset);
        if laidOut {
          assert rawData.Contents() == Splice(s1, count, paramCntWroteOffset);
          SpliceTwice(s, size, count, paramCntWroteOffset);
          if complete {
            Patched(s, header, TraceBlock(), params);
          }
        }
      }
      return rawData;
    }
  }

  /** Patching the two fields of a laid-out buffer makes it the message. */
  lemma {:induction false} Patched(s: Bytes, h: Header, trace: Option<Trace>, params: seq<Param>)
    requires h.Valid()
    requires var off := 84 + |OptionalTraceBytes(trace)|;
             && off + 4 <= |s|
             && s[4..off] == HeaderBytes(h) + OptionalTraceBytes(trace)
             && s[off + 4..] == ParamsBytes(params)
    ensures var off := 84 + |OptionalTraceBytes(trace)|;
            Splice(Splice(s, LittleEndian(|s|, 4), 0), LittleEndian(|params|, 4), off)
            == MessageBytes(h, trace, params)
  {
    hide *;
    var off, t, body := 84 + |OptionalTraceBytes(trace)|, OptionalTraceBytes(trace), ParamsBytes(params);
    var size, count := LittleEndian(|s|, 4), LittleEndian(|params|, 4);
    SpliceTwice(s, size, count, off);
    MessageIs(h, trace, params);
    assert |s| == off + 4 + |s[off + 4..]|;
  }

  lemma {:induction false} MessageIs(h: Header, trace: Option<Trace>, params: seq<Param>)
    requires h.Valid()
    ensures MessageBytes(h, trace, params)
            == LittleEndian(88 + |OptionalTraceBytes(trace)| + |ParamsBytes(params)|, 4)
               + (HeaderBytes(h) + OptionalTraceBytes(trace)) + LittleEndian(|params|, 4)
               + ParamsBytes(params)
  {
    hide LittleEndian, HeaderBytes, OptionalTraceBytes, ParamsBytes;
  }

  lemma {:induction false} SpliceTwice(s: Bytes, a: Bytes, b: Bytes, off: nat)
    requires |a| == |b| == 4 <= off && off + 4 <= |s|
    ensures var r := Splice(Splice(s, a, 0), b, off);
            && r == a + s[4..off] + b + s[off + 4..]
            && r[4..off] == s[4..off] && r[off + 4..] == s[off + 4..]
            && |r| == |s| && forall i :: 4 <= i < |s| && (i < off || off + 4 <= i) ==> r[i] == s[i]
  {
    var s1 := Splice(s, a, 0);
    assert s1 == a + s[4..];
    assert s1[..off] == a + s[4..off] && s1[off + 4..] == s[off + 4..];
  }

  lemma {:induction false} FixedPart(size: Bytes, h: Bytes, t: Bytes, count: Bytes)
    requires |size| == |count| == 4
    ensures var s := size + h + t + count;
            var off := 4 + |h| + |t|;
            s[4..off] == h + t && s[off + 4..] == [] && ParamsBytes([]) == []
  {
    var s := size + h + t + count;
    var off := 4 + |h| + |t|;
    assert s == size + (h + t) + count;
    assert s[..off] == size + (h + t);
  }

  /** Appending keeps the fixed part and, when it succeeds, extends the parameter bytes. */
  lemma {:induction false} Appended(before: Bytes, after: Bytes, off: nat, params: seq<Param>, p: Param, ok: bool)
    requires 4 <= off && off + 4 <= |before|
    requires Extends(before, after, ParamBytes(p), ok)
    ensures |before| <= |after| && after[4..off] == before[4..off]
    ensures ok && before[off + 4..] == ParamsBytes(params)
            ==> after[off + 4..] == ParamsBytes(params + [p])
  {
    hide ParamBytes, ParamsBytes;
    ParamsBytesAppend(params, p);
    if ok {
      assert after[off + 4..] == before[off + 4..] + ParamBytes(p);
    }
  }
}
