/** The plain C writer: one string parameter in a fixed buffer on the stack. */
module EasyEvents {
  import opened ByteStrings
  import opened RawDataBuffer
  import opened RawDataEncoder
  import opened WireFormat
  import opened EventFormat
  import opened EventSocketFactory
  import EncodedParams
  import Varint

  const EVENT_BUFF_LEN: nat := 1120
  const DATA_MAX_LEN: nat := 1024
  const DOMAIN_ARRAY_LEN: nat := 17
  const NAME_ARRAY_LEN: nat := 33

  const SUCCESS: int := 0
  const ERR_DOMAIN_INVALID: int := -1
  const ERR_NAME_INVALID: int := -2
  const ERR_TYPE_INVALID: int := -3
  const ERR_PARAM_VALUE_INVALID: int := -4
  const ERR_ENCODE_STR_FAILED: int := -6
  const ERR_ENCODE_VALUE_TYPE_FAILED: int := -7
  const ERR_MEM_OPT_FAILED: int := -8

  /** The content of a C string. */
  type Chars = s: Bytes | 0 !in s

  // ---------- memory helpers

  method MemoryInit(data: array?<Byte>, dataLen: nat) returns (ret: int)
    requires data != null ==> dataLen <= data.Length
    modifies data
    ensures ret == if data == null then ERR_MEM_OPT_FAILED else SUCCESS
    ensures data != null ==> data[..] == Splice(old(data[..]), Zeros(dataLen), 0)
  {
    if data == null {
      return ERR_MEM_OPT_FAILED;
    }
    for index := 0 to dataLen
      invariant forall k :: 0 <= k < index ==> data[k] == 0
      invariant forall k :: index <= k < data.Length ==> data[k] == old(data[k])
    {
      data[index] := 0;
    }
    return SUCCESS;
  }

  /** Copies `src`, none for a null pointer, to `dest + at`, where `destLen` bytes are available. */
  method MemoryCopy(dest: array?<Byte>, at: nat, destLen: nat, src: Option<Bytes>) returns (ret: int)
    requires dest != null ==> at + destLen <= dest.Length
    modifies dest
    ensures ret == if dest == null || src.None? || destLen < |src.value| then ERR_MEM_OPT_FAILED else SUCCESS
    ensures dest != null ==>
              dest[..] == if ret == SUCCESS then Splice(old(dest[..]), src.value, at) else old(dest[..])
  {
    if dest == null || src.None? || destLen < |src.value| {
      return ERR_MEM_OPT_FAILED;
    }
    for index := 0 to |src.value|
      invariant forall k :: 0 <= k < index ==> dest[at + k] == src.value[k]
      invariant forall k :: 0 <= k < at || at + index <= k < dest.Length ==> dest[k] == old(dest[k])
    {
      dest[at + index] := src.value[index];
    }
    return SUCCESS;
  }

  // ---------- encoder

  /** The buffer after writing a prefix of `enc` at `offset`: all of it exactly when it fits, and
      nothing outside the part from `offset` to `end`. */
  ghost predicate Wrote(before: Bytes, after: Bytes, dataLen: nat, offset: nat, end: nat, enc: Bytes, ok: bool) {
    && |after| == |before| && dataLen <= |before|
    && (ok <==> offset + |enc| <= dataLen)
    && offset <= end && end - offset <= |enc|
    && (ok ==> end == offset + |enc|)
    && (if offset <= dataLen
        then end <= dataLen && after == Splice(before, enc[..end - offset], offset)
        else end == offset && after == before)
  }

  method EncodeUnsignedVarint(data: array<Byte>, dataLen: nat, offset: nat, encodeType: Varint.Tag, u64Val: U64)
    returns (ok: bool, end: nat)
    requires dataLen <= data.Length
    modifies data
    ensures Wrote(old(data[..]), data[..], dataLen, offset, end, Varint.Encode(encodeType, u64Val), ok)
  {
    hide Wrote, Varint.Encode, Varint.EncodeTail, Splice;
    ghost var enc := Varint.Encode(encodeType, u64Val);
    ghost var before := data[..];
    end := offset;
    var rest := u64Val;
    var cpyVal := encodeType * 64 + (if rest < 32 then 0 else 32) + rest % 32;
    if dataLen < end || dataLen - end < 1 {
      CopyRefused(before, dataLen, offset, enc);
      return false, end;
    }
    data[end] := cpyVal;
    end := end + 1;
    rest := rest / 32;
    ghost var done: Bytes := [cpyVal];
    Varint.EncodeStep(encodeType, u64Val);
    OneByte(before, data[..], offset, cpyVal);
    while rest > 0
      invariant offset < end <= dataLen && end - offset == |done|
      invariant done + Varint.EncodeTail(rest) == enc
      invariant data[..] == Splice(before, done, offset)
    {
      Varint.TailStep(rest);
      cpyVal := (if rest < 128 then 0 else 128) + rest % 128;
      if dataLen < end || dataLen - end < 1 {
        WrittenPart(before, data[..], dataLen, offset, done, Varint.EncodeTail(rest));
        return false, end;
      }
      OneMoreByte(before, done, offset, cpyVal);
      data[end] := cpyVal;
      end := end + 1;
      rest := rest / 128;
      done := done + [cpyVal];
    }
    Varint.TailStep(0);
    CopyDone(before, data[..], dataLen, offset, done);
    assert done + [] == done;
    return true, end;
  }

  lemma {:induction false} OneByte(b: Bytes, after: Bytes, at: nat, x: Byte)
    requires at < |b| && after == b[at := x]
    ensures after == Splice(b, [x], at)
  {
  }

  lemma {:induction false} OneMoreByte(b: Bytes, done: Bytes, at: nat, x: Byte)
    requires at + |done| < |b|
    ensures Splice(b, done, at)[at + |done| := x] == Splice(b, done + [x], at)
  {
  }

  /** A buffer that is full before everything is written. */
  lemma {:induction false} WrittenPart(b: Bytes, after: Bytes, dataLen: nat, at: nat, done: Bytes, missing: Bytes)
    requires at + |done| == dataLen <= |b| && missing != [] && after == Splice(b, done, at)
    ensures Wrote(b, after, dataLen, at, at + |done|, done + missing, false)
  {
    assert (done + missing)[..|done|] == done;
  }

  method EncodeValueType(data: array<Byte>, dataLen: nat, offset: nat, kind: Kind) returns (ret: int, end: nat)
    requires dataLen <= data.Length
    modifies data
    ensures ret == SUCCESS || ret == ERR_ENCODE_VALUE_TYPE_FAILED
    ensures Wrote(old(data[..]), data[..], dataLen, offset, end, [TypeByte(false, kind)], ret == SUCCESS)
  {
    if dataLen < offset || dataLen - offset < 1 {
      return ERR_ENCODE_VALUE_TYPE_FAILED, offset;
    }
    data[offset] := 0 + 2 * kind.Code();
    return SUCCESS, offset + 1;
  }

  lemma {:induction false} WroteTwice(b0: Bytes, b1: Bytes, b2: Bytes, dataLen: nat, offset: nat, mid: nat,
                                      end: nat, e1: Bytes, e2: Bytes, ok: bool)
    requires Wrote(b0, b1, dataLen, offset, mid, e1, true)
    requires Wrote(b1, b2, dataLen, mid, end, e2, ok)
    ensures Wrote(b0, b2, dataLen, offset, end, e1 + e2, ok)
  {
    assert (e1 + e2)[..end - offset] == e1 + e2[..end - mid];
  }

  lemma {:induction false} WrotePart(b0: Bytes, b1: Bytes, dataLen: nat, offset: nat, end: nat, e1: Bytes, e2: Bytes)
    requires Wrote(b0, b1, dataLen, offset, end, e1, false)
    ensures Wrote(b0, b1, dataLen, offset, end, e1 + e2, false)
  {
    assert (e1 + e2)[..end - offset] == e1[..end - offset];
  }

  method EncodeStringValue(data: array<Byte>, dataLen: nat, offset: nat, content: Chars) returns (ret: int, end: nat)
    requires dataLen <= data.Length && |content| < TWO_TO_THE_64
    modifies data
    ensures ret == SUCCESS || ret == ERR_ENCODE_STR_FAILED
    ensures Wrote(old(data[..]), data[..], dataLen, offset, end, TextBytes(content), ret == SUCCESS)
  {
    hide Wrote;
    ghost var b0 := data[..];
    ghost var head := Varint.Encode(Varint.LENGTH_DELIMITED, |content|);
    var ok, mid := EncodeUnsignedVarint(data, dataLen, offset, Varint.LENGTH_DELIMITED, |content|);
    ghost var b1 := data[..];
    if !ok {
      WrotePart(b0, b1, dataLen, offset, mid, head, content);
      return ERR_ENCODE_STR_FAILED, mid;
    }
    if dataLen < mid || dataLen - mid < |content| {
      CopyRefused(b1, dataLen, mid, content);
      WroteTwice(b0, b1, b1, dataLen, offset, mid, mid, head, content, false);
      return ERR_ENCODE_STR_FAILED, mid;
    }
    ret := MemoryCopy(data, mid, dataLen - mid, Some(content));
    end := mid + |content|;
    CopyDone(b1, data[..], dataLen, mid, content);
    WroteTwice(b0, b1, data[..], dataLen, offset, mid, end, head, content, true);
  }

  lemma {:induction false} CopyRefused(b: Bytes, dataLen: nat, at: nat, src: Bytes)
    requires dataLen <= |b| && dataLen < at + |src|
    ensures Wrote(b, b, dataLen, at, at, src, false)
  {
  }

  lemma {:induction false} CopyDone(b: Bytes, after: Bytes, dataLen: nat, at: nat, src: Bytes)
    requires at + |src| <= dataLen <= |b| && after == Splice(b, src, at)
    ensures Wrote(b, after, dataLen, at, at + |src|, src, true)
  {
    assert src[..|src|] == src;
  }

  // ---------- builder

  method AppendHeader(eventBuffer: array<Byte>, bufferLen: nat, offset: nat, header: Header) returns (ret: int, end: nat)
    requires bufferLen <= eventBuffer.Length && header.Valid()
    modifies eventBuffer
    ensures ret == SUCCESS || ret == ERR_MEM_OPT_FAILED
    ensures Wrote(old(eventBuffer[..]), eventBuffer[..], bufferLen, offset, end, HeaderBytes(header), ret == SUCCESS)
  {
    hide Wrote, HeaderBytes;
    if bufferLen < offset || bufferLen - offset < HEADER_LENGTH {
      CopyRefused(eventBuffer[..], bufferLen, offset, HeaderBytes(header));
      return ERR_MEM_OPT_FAILED, offset;
    }
    ghost var before := eventBuffer[..];
    var image := HeaderBytes(header);
    forall i | 0 <= i < HEADER_LENGTH {
      eventBuffer[offset + i] := image[i];
    }
    assert eventBuffer[..] == Splice(before, image, offset);
    CopyDone(before, eventBuffer[..], bufferLen, offset, image);
    return SUCCESS, offset + HEADER_LENGTH;
  }

  function StringParam(key: Bytes, val: Bytes): Param {
    Param(key, Scalar(Text(val)))
  }

  /** Key, value type and value. Whatever happens, earlier and later bytes stay and the new offset
      is inside the buffer; on success the bytes are those of the C++ string parameter. */
  method AppendStringParam(eventBuffer: array<Byte>, bufferLen: nat, offset: nat, key: Chars, val: Option<Chars>)
    returns (ret: int, end: nat)
    requires bufferLen <= eventBuffer.Length && |key| < TWO_TO_THE_64
    modifies eventBuffer
    ensures val.None? || |val.value| > DATA_MAX_LEN ==>
              ret == ERR_PARAM_VALUE_INVALID && end == offset && eventBuffer[..] == old(eventBuffer[..])
    ensures val.Some? && |val.value| <= DATA_MAX_LEN ==>
              Wrote(old(eventBuffer[..]), eventBuffer[..], bufferLen, offset, end,
                    ParamBytes(StringParam(key, val.value)), ret == SUCCESS)
              && (ret == SUCCESS || ret == ERR_ENCODE_STR_FAILED || ret == ERR_ENCODE_VALUE_TYPE_FAILED)
  {
    hide Wrote, TextBytes;
    end := offset;
    if val.None? || |val.value| > DATA_MAX_LEN {
      return ERR_PARAM_VALUE_INVALID, end;
    }
    ghost var b0 := eventBuffer[..];
    ghost var k, t, v := TextBytes(key), [TypeByte(false, String)], TextBytes(val.value);
    assert ParamBytes(StringParam(key, val.value)) == k + t + v;
    ret, end := EncodeStringValue(eventBuffer, bufferLen, end, key);
    ghost var b1, end1 := eventBuffer[..], end;
    if ret != SUCCESS {
      WrotePart(b0, b1, bufferLen, offset, end, k, t);
      WrotePart(b0, b1, bufferLen, offset, end, k + t, v);
      return;
    }
    ret, end := EncodeValueType(eventBuffer, bufferLen, end, String);
    ghost var b2, end2 := eventBuffer[..], end;
    WroteTwice(b0, b1, b2, bufferLen, offset, end1, end, k, t, ret == SUCCESS);
    if ret != SUCCESS {
      WrotePart(b0, b2, bufferLen, offset, end, k + t, v);
      return;
    }
    ret, end := EncodeStringValue(eventBuffer, bufferLen, end, val.value);
    WroteTwice(b0, b2, eventBuffer[..], bufferLen, offset, end2, end, k + t, v, ret == SUCCESS);
  }

  /** The two encoders agree: what this one puts between the old and the new offset is what the
      C++ string parameter appends to its buffer for the same key and text. */
  lemma {:induction false} TwoEncodersAgree(key: Chars, val: Chars, easyBefore: Bytes, easyAfter: Bytes,
                                            bufferLen: nat, offset: nat, end: nat,
                                            growingBefore: Bytes, growingAfter: Bytes)
    requires Wrote(easyBefore, easyAfter, bufferLen, offset, end, ParamBytes(StringParam(key, val)), true)
    requires Extends(growingBefore, growingAfter,
                     ParamBytes(Param(key, EncodedParams.Stored(Scalar(Text(val))))), true)
    ensures offset <= end <= |easyAfter| && easyAfter[offset..end] == growingAfter[|growingBefore|..]
  {
    hide ParamBytes;
  }

  // ---------- the size bound

  const DATA_KEY: Chars := [68, 65, 84, 65]

  lemma {:induction false} DataKeyIsDATA()
    ensures DATA_KEY == Ascii("DATA")
  {
  }

  function VarintLength(n: nat): nat {
    |Varint.Encode(Varint.LENGTH_DELIMITED, n)|
  }

  function UsedBytes(data: Bytes): nat {
    88 + |ParamBytes(StringParam(DATA_KEY, data))|
  }

  /** A message with `n` data bytes takes 94 + (varint length of n) + n bytes, which fits into the
      1120-byte buffer for every n up to 1024 and fills it exactly at 1024. */
  lemma {:induction false} BufferBound(data: Bytes)
    ensures UsedBytes(data) == 94 + VarintLength(|data|) + |data|
    ensures UsedBytes(data) <= EVENT_BUFF_LEN <==> |data| <= DATA_MAX_LEN
    ensures UsedBytes(data) == EVENT_BUFF_LEN <==> |data| == DATA_MAX_LEN
  {
    hide Varint.Encode;
    Varint.LengthBounds(Varint.LENGTH_DELIMITED, |data|);
    Varint.LengthBounds(Varint.LENGTH_DELIMITED, 4);
  }

  // ---------- what the buffer means

  datatype Environment = Environment(timestamp: U64, timeZone: Byte, uid: U32, tid: U32,
                                     realPid: U32, pid: U32)

  /** The message of an easy write: the values read from the running process, the real process id
      if there is one, the type one less, and the text under its fixed name. */
  function EasyMeaning(domain: Bytes, name: Bytes, eventType: int, data: Bytes, env: Environment, realPid: U32): Message
    requires 1 <= eventType <= 4
  {
    Message(1120,
            Header(domain := domain, name := name, timestamp := env.timestamp, timeZone := env.timeZone,
                   uid := env.uid, pid := if realPid != 0 then realPid else env.pid, tid := env.tid,
                   id := 0, typeBits := eventType - 1, isTraceOpened := false),
            None, [Param(Ascii("DATA"), Scalar(Text(data)))])
  }

  function EasyHeader(domain: Bytes, name: Bytes, eventType: int, env: Environment, pid: U32): Header {
    Header(domain, name, env.timestamp, env.timeZone, env.uid, pid, env.tid, 0, (eventType - 1) % 4, false)
  }

  /** The whole buffer that is sent. */
  function EasyBuffer(h: Header, data: Bytes): (r: Bytes)
    requires h.Valid() && |data| <= DATA_MAX_LEN
  {
    BufferBound(data);
    Layout(EVENT_BUFF_LEN, h, None, 1, ParamBytes(StringParam(DATA_KEY, data)))
    + Zeros(EVENT_BUFF_LEN - UsedBytes(data))
  }

  /** What both readers find in a full buffer: the message, only zeros behind it, and the fields
      that choose a socket. */
  ghost predicate Says(sent: Bytes, message: Message, info: EventInfo) {
    && |sent| == 1120 && ReadInfo(sent) == info
    && DecodeMessage(sent).Got? && DecodeMessage(sent).value == message
    && DecodeMessage(sent).rest == Zeros(|DecodeMessage(sent).rest|)
  }

  /** Both readers of the buffer: the full decoder, and the one that chooses a socket. */
  lemma {:induction false} EasyReadBack(h: Header, data: Bytes)
    requires h.Valid() && !h.isTraceOpened && |data| <= DATA_MAX_LEN
    ensures Says(EasyBuffer(h, data), Message(1120, h, None, [Param(Ascii("DATA"), Scalar(Text(data)))]),
                 EventInfo(h.domain, h.name, h.typeBits + 1))
  {
    hide DecodeMessage, ReadInfo, ParamBytes, Layout;
    BufferBound(data);
    DataKeyIsDATA();
    EasyRoundTrip(h, data);
    HeaderReadBack(EVENT_BUFF_LEN, h, None, 1, ParamBytes(StringParam(DATA_KEY, data)),
                   Zeros(EVENT_BUFF_LEN - UsedBytes(data)));
  }

  class EasyWriter {
    /** The cached process id, zero until it was read. */
    var gPid: U32

    constructor ()
      ensures gPid == 0
    {
      gPid := 0;
    }

    method InitEventHeader(domain: Chars, name: Chars, eventType: int, env: Environment)
      returns (ret: int, header: Header)
      modifies this`gPid
      ensures ret == if |domain| > DOMAIN_ARRAY_LEN || |name| > NAME_ARRAY_LEN then ERR_MEM_OPT_FAILED else SUCCESS
      ensures ret != SUCCESS ==> gPid == old(gPid)
      ensures ret == SUCCESS ==>
                && gPid == (if old(gPid) == 0 then env.realPid else old(gPid))
                && header == EasyHeader(domain, name, eventType, env, if gPid != 0 then gPid else env.pid)
      ensures |domain| <= MAX_DOMAIN_LENGTH && |name| <= MAX_EVENT_NAME_LENGTH ==> header.Valid()
    {
      header := Header([], [], 0, 0, 0, 0, 0, 0, 0, false);
      if |domain| > DOMAIN_ARRAY_LEN || |name| > NAME_ARRAY_LEN {
        return ERR_MEM_OPT_FAILED, header;
      }
      ret := SUCCESS;
      var pid;
      if gPid == 0 {
        gPid := env.realPid;
        pid := if gPid != 0 then gPid else env.pid;
      } else {
        pid := gPid;
      }
      header := Header(domain, name, env.timestamp, env.timeZone, env.uid, pid, env.tid, 0,
                       (eventType - 1) % 4, false);
    }

    /** Checks the arguments, assembles the buffer and hands it to the socket. `sendRet` is what
        the socket write returns. */
    method HiSysEventEasyWrite(domain: Option<Chars>, name: Option<Chars>, eventType: int, data: Option<Chars>,
                               env: Environment, sendRet: int)
      returns (ret: int, sent: Option<Bytes>)
      modifies this`gPid
      ensures gPid == old(gPid) || (old(gPid) == 0 && gPid == env.realPid)
      ensures domain.None? || |domain.value| > 16 ==> ret == ERR_DOMAIN_INVALID && sent.None? && gPid == old(gPid)
      ensures domain.Some? && |domain.value| <= 16 ==>
        && (name.None? || |name.value| > 32 ==> ret == ERR_NAME_INVALID && sent.None? && gPid == old(gPid))
        && (name.Some? && |name.value| <= 32 ==>
            && (!(1 <= eventType <= 4) ==> ret == ERR_TYPE_INVALID && sent.None? && gPid == old(gPid))
            && (1 <= eventType <= 4 ==>
                && (data.None? || |data.value| > 1024 ==> ret == ERR_PARAM_VALUE_INVALID && sent.None?)
                && (old(gPid) == 0 ==> gPid == env.realPid)
                && (data.Some? && |data.value| <= 1024 ==>
                    && ret == sendRet
                    && var h := EasyHeader(domain.value, name.value, eventType, env,
                                           if gPid != 0 then gPid else env.pid);
                       h.Valid() && sent == Some(EasyBuffer(h, data.value)))))
      ensures sent.Some? ==>
                && domain.Some? && name.Some? && data.Some? && 1 <= eventType <= 4
                && Says(sent.value, EasyMeaning(domain.value, name.value, eventType, data.value, env, gPid),
                        EventInfo(domain.value, name.value, eventType))
    {
      hide EasyBuffer, Says, Header.Valid;
      sent := None;
      if domain.None? || |domain.value| > MAX_DOMAIN_LENGTH {
        return ERR_DOMAIN_INVALID, None;
      }
      if name.None? || |name.value| > MAX_EVENT_NAME_LENGTH {
        return ERR_NAME_INVALID, None;
      }
      if eventType < 1 || eventType > 4 {
        return ERR_TYPE_INVALID, None;
      }
      var code, header := InitEventHeader(domain.value, name.value, eventType, env);
      if code != SUCCESS {
        return code, None;
      }
      var eventBuffer;
      eventBuffer, code := Assemble(header, data);
      if code != SUCCESS {
        return code, None;
      }
      EasyReadBack(header, data.value);
      return sendRet, Some(eventBuffer[..]);
    }

    /** Fills the buffer. With data of at most 1024 bytes every step succeeds. */
    method Assemble(header: Header, data: Option<Chars>) returns (eventBuffer: array<Byte>, ret: int)
      requires header.Valid()
      ensures fresh(eventBuffer)
      ensures ret == if data.Some? && |data.value| <= DATA_MAX_LEN then SUCCESS else ERR_PARAM_VALUE_INVALID
      ensures ret == SUCCESS ==> eventBuffer[..] == EasyBuffer(header, data.value)
    {
      hide LittleEndian, HeaderBytes, ParamBytes, TextBytes, Wrote;
      eventBuffer := new Byte[EVENT_BUFF_LEN](_ => 0);
      var offset := PutInt32(eventBuffer, 0, EVENT_BUFF_LEN);
      ghost var s1 := eventBuffer[..];
      ret, offset := AppendHeader(eventBuffer, EVENT_BUFF_LEN, offset, header);
      ghost var s2 := eventBuffer[..];
      HeaderFits(s1, s2, offset, header, ret);
      offset := PutInt32(eventBuffer, offset, 1);
      ghost var s3 := eventBuffer[..];
      ret, offset := AppendStringParam(eventBuffer, EVENT_BUFF_LEN, offset, DATA_KEY, data);
      if data.Some? && |data.value| <= DATA_MAX_LEN {
        ParamFits(s3, eventBuffer[..], offset, data.value, ret);
        Assembled(s1, s2, s3, eventBuffer[..], header, data.value);
      }
    }

    method PutInt32(eventBuffer: array<Byte>, offset: nat, v: nat) returns (end: nat)
      requires offset + 4 <= eventBuffer.Length
      modifies eventBuffer
      ensures end == offset + 4
      ensures eventBuffer[..] == Splice(old(eventBuffer[..]), LittleEndian(v, 4), offset)
    {
      var image := LittleEndian(v, 4);
      forall i | 0 <= i < 4 {
        eventBuffer[offset + i] := image[i];
      }
      return offset + 4;
    }
  }

  lemma {:induction false} HeaderFits(before: Bytes, after: Bytes, end: nat, h: Header, ret: int)
    requires h.Valid() && |before| == EVENT_BUFF_LEN
    requires Wrote(before, after, EVENT_BUFF_LEN, 4, end, HeaderBytes(h), ret == SUCCESS)
    ensures ret == SUCCESS && end == 84 && after == Splice(before, HeaderBytes(h), 4)
  {
    hide HeaderBytes;
  }

  lemma {:induction false} ParamFits(before: Bytes, after: Bytes, end: nat, data: Bytes, ret: int)
    requires |before| == EVENT_BUFF_LEN && |data| <= DATA_MAX_LEN
    requires Wrote(before, after, EVENT_BUFF_LEN, 88, end, ParamBytes(StringParam(DATA_KEY, data)), ret == SUCCESS)
    ensures UsedBytes(data) <= EVENT_BUFF_LEN
    ensures ret == SUCCESS && after == Splice(before, ParamBytes(StringParam(DATA_KEY, data)), 88)
  {
    hide ParamBytes;
    BufferBound(data);
  }

  lemma {:induction false} Assembled(s1: Bytes, s2: Bytes, s3: Bytes, s4: Bytes, h: Header, data: Bytes)
    requires h.Valid() && |data| <= DATA_MAX_LEN && UsedBytes(data) <= EVENT_BUFF_LEN
    requires s1 == Splice(Zeros(EVENT_BUFF_LEN), LittleEndian(EVENT_BUFF_LEN, 4), 0)
    requires s2 == Splice(s1, HeaderBytes(h), 4)
    requires s3 == Splice(s2, LittleEndian(1, 4), 84)
    requires s4 == Splice(s3, ParamBytes(StringParam(DATA_KEY, data)), 88)
    ensures s4 == EasyBuffer(h, data)
  {
    hide LittleEndian, HeaderBytes, ParamBytes;
    var size, hb, one, p := LittleEndian(EVENT_BUFF_LEN, 4), HeaderBytes(h), LittleEndian(1, 4),
                            ParamBytes(StringParam(DATA_KEY, data));
    assert s1 == size + Zeros(1116);
    assert s2 == size + hb + Zeros(1036);
    assert s3 == size + hb + one + Zeros(1032);
    assert s4 == size + hb + one + p + Zeros(1032 - |p|);
    assert size + hb + [] == size + hb;
  }

  /** The reference decoder reads the sent buffer as a message without a trace block and with the
      single parameter DATA; what is left over is zero bytes. */
  lemma {:induction false} EasyRoundTrip(h: Header, data: Bytes)
    requires h.Valid() && !h.isTraceOpened && |data| <= DATA_MAX_LEN
    ensures UsedBytes(data) <= EVENT_BUFF_LEN && |EasyBuffer(h, data)| == EVENT_BUFF_LEN
    ensures DecodeMessage(EasyBuffer(h, data)) ==
            Got(Message(EVENT_BUFF_LEN, h, None, [StringParam(DATA_KEY, data)]),
                Zeros(EVENT_BUFF_LEN - UsedBytes(data)))
  {
    hide DecodeMessage, Layout, ParamBytes;
    BufferBound(data);
    var p := StringParam(DATA_KEY, data);
    assert ParamsBytes([p]) == ParamBytes(p) by {
      assert [p][1..] == [];
      assert ParamBytes(p) + [] == ParamBytes(p);
    }
    LayoutRoundTrip(EVENT_BUFF_LEN, h, None, [p], Zeros(EVENT_BUFF_LEN - UsedBytes(data)));
  }
}
