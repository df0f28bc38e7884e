/** The layout of a whole event message and its reference decoder. */
module EventFormat {
  import opened ByteStrings
  import opened WireFormat

  const MAX_DOMAIN_LENGTH: nat := 16
  const MAX_EVENT_NAME_LENGTH: nat := 32
  const BLOCK_SIZE_LENGTH: nat := 4
  const HEADER_LENGTH: nat := 80
  const TRACE_LENGTH: nat := 17

  /** The packed event header. `typeBits` is the 2-bit field that holds the event type minus one. */
  datatype Header = Header(domain: Bytes, name: Bytes, timestamp: U64, timeZone: Byte,
                           uid: U32, pid: U32, tid: U32, id: U64,
                           typeBits: nat, isTraceOpened: bool)
  {
    predicate Valid() {
      && |domain| <= MAX_DOMAIN_LENGTH && 0 !in domain
      && |name| <= MAX_EVENT_NAME_LENGTH && 0 !in name
      && typeBits < 4
    }
  }

  datatype Trace = Trace(flag: Byte, traceId: U64, spanId: U32, pSpanId: U32)

  datatype Message = Message(blockSize: nat, header: Header, trace: Option<Trace>, params: seq<Param>)

  // ---------- layout

  function HeaderText(h: Header): (r: Bytes)
    requires h.Valid()
    ensures |r| == 50
  {
    Pad(h.domain, MAX_DOMAIN_LENGTH + 1) + Pad(h.name, MAX_EVENT_NAME_LENGTH + 1)
  }

  function HeaderNumbers(h: Header): (r: Bytes)
    requires h.Valid()
    ensures |r| == 30
  {
    LittleEndian(h.timestamp, 8) + [h.timeZone] + LittleEndian(h.uid, 4) + LittleEndian(h.pid, 4)
    + LittleEndian(h.tid, 4) + LittleEndian(h.id, 8)
    + [h.typeBits + (if h.isTraceOpened then 4 else 0)]
  }

  function HeaderBytes(h: Header): (r: Bytes)
    requires h.Valid()
    ensures |r| == HEADER_LENGTH
  {
    HeaderText(h) + HeaderNumbers(h)
  }

  function TraceBytes(t: Trace): (r: Bytes)
    ensures |r| == TRACE_LENGTH
  {
    [t.flag] + LittleEndian(t.traceId, 8) + LittleEndian(t.spanId, 4) + LittleEndian(t.pSpanId, 4)
  }

  function OptionalTraceBytes(t: Option<Trace>): Bytes {
    match t
    case None => []
    case Some(trace) => TraceBytes(trace)
  }

  /** A message around given block size and parameter count fields. */
  function Layout(blockSize: int, h: Header, trace: Option<Trace>, count: int, params: Bytes): (r: Bytes)
    requires h.Valid()
    ensures |r| == 88 + |OptionalTraceBytes(trace)| + |params|
  {
    LittleEndian(blockSize, 4) + HeaderBytes(h) + OptionalTraceBytes(trace)
    + LittleEndian(count, 4) + params
  }

  function MessageBytes(h: Header, trace: Option<Trace>, params: seq<Param>): (r: Bytes)
    requires h.Valid()
  {
    var body := ParamsBytes(params);
    Layout(88 + |OptionalTraceBytes(trace)| + |body|, h, trace, |params|, body)
  }

  // ---------- decoding

  function DecodeHeader(s: Bytes): Header
    requires |s| == HEADER_LENGTH
  {
    Header(CString(s[..17]), CString(s[17..50]),
           Word64(s[50..58]), s[58], Word32(s[59..63]), Word32(s[63..67]), Word32(s[67..71]),
           Word64(s[71..79]), s[79] % 4, s[79] / 4 % 2 == 1)
  }

  function Word32(s: Bytes): U32
    requires |s| == 4
  {
    WordBound(s);
    FromLittleEndian(s)
  }

  function Word64(s: Bytes): U64
    requires |s| == 8
  {
    WordBound(s);
    FromLittleEndian(s)
  }

  lemma {:induction false} LittleEndianBound(s: Bytes)
    ensures FromLittleEndian(s) < Pow256(|s|)
  {
    if s != [] {
      LittleEndianBound(s[1..]);
    }
  }

  lemma {:induction false} WordBound(s: Bytes)
    ensures |s| == 4 ==> FromLittleEndian(s) < TWO_TO_THE_32
    ensures |s| == 8 ==> FromLittleEndian(s) < TWO_TO_THE_64
  {
    LittleEndianBound(s);
    Pow256Values();
  }

  function DecodeTrace(s: Bytes): Trace
    requires |s| == TRACE_LENGTH
  {
    Trace(s[0], Word64(s[1..9]), Word32(s[9..13]), Word32(s[13..17]))
  }

  function DecodeBody(blockSize: nat, h: Header, trace: Option<Trace>, s: Bytes): Parsed<Message> {
    if |s| < 4 then Fail
    else match DecodeParams(FromLittleEndian(s[..4]), s[4..])
      case Fail => Fail
      case Got(params, rest) => Got(Message(blockSize, h, trace, params), rest)
  }

  /** The trace block is there exactly when the header says so. */
  function DecodeAfterHeader(blockSize: nat, h: Header, s: Bytes): Parsed<Message> {
    if !h.isTraceOpened then DecodeBody(blockSize, h, None, s)
    else if |s| < TRACE_LENGTH then Fail
    else DecodeBody(blockSize, h, Some(DecodeTrace(s[..17])), s[17..])
  }

  function DecodeMessage(s: Bytes): Parsed<Message> {
    if |s| < BLOCK_SIZE_LENGTH + HEADER_LENGTH then Fail
    else DecodeAfterHeader(FromLittleEndian(s[..4]), DecodeHeader(s[4..84]), s[84..])
  }

  // ---------- round trips

  lemma {:induction false} WordRoundTrip(v: nat)
    ensures v < TWO_TO_THE_32 ==> Word32(LittleEndian(v, 4)) == v
    ensures v < TWO_TO_THE_64 ==> Word64(LittleEndian(v, 8)) == v
  {
    Pow256Values();
    if v < TWO_TO_THE_32 { LittleEndianFits(v, 4); }
    if v < TWO_TO_THE_64 { LittleEndianFits(v, 8); }
  }

  lemma {:induction false} HeaderNumberSlices(h: Header)
    requires h.Valid()
    ensures var s := HeaderNumbers(h);
            && s[..8] == LittleEndian(h.timestamp, 8) && s[8] == h.timeZone
            && s[9..13] == LittleEndian(h.uid, 4) && s[13..17] == LittleEndian(h.pid, 4)
            && s[17..21] == LittleEndian(h.tid, 4) && s[21..29] == LittleEndian(h.id, 8)
            && s[29] == h.typeBits + (if h.isTraceOpened then 4 else 0)
  {
    hide LittleEndian;
    var s := HeaderNumbers(h);
    var time, zone, uid, pid := LittleEndian(h.timestamp, 8), [h.timeZone], LittleEndian(h.uid, 4), LittleEndian(h.pid, 4);
    var tid, id, last := LittleEndian(h.tid, 4), LittleEndian(h.id, 8), [h.typeBits + (if h.isTraceOpened then 4 else 0)];
    assert s == time + zone + uid + (pid + (tid + id + last));
    ConcatSlices(time, zone, uid, pid + (tid + id + last));
    assert s[9..] == uid + pid + tid + (id + last);
    ConcatSlices(uid, pid, tid, id + last);
    assert s[9..][4..8] == s[13..17] && s[9..][8..12] == s[17..21];
    assert s[21..] == id + last;
    assert s[21..][..8] == s[21..29] && s[21..][8] == s[29];
    assert s[8..9] == zone && s[8..9][0] == s[8];
  }

  lemma {:induction false} HeaderRoundTrip(h: Header)
    requires h.Valid()
    ensures DecodeHeader(HeaderBytes(h)) == h
  {
    hide HeaderText, HeaderNumbers, LittleEndian, CString, Pad;
    var s, t, n := HeaderBytes(h), HeaderText(h), HeaderNumbers(h);
    assert s[..17] == t[..17] && s[17..50] == t[17..50];
    assert forall i, j :: 0 <= i <= j <= 30 ==> s[50 + i..50 + j] == n[i..j];
    HeaderTextSlices(h);
    HeaderNumberSlices(h);
    CStringOfPad(h.domain, 17);
    CStringOfPad(h.name, 33);
    WordRoundTrip(h.timestamp);
    WordRoundTrip(h.uid);
    WordRoundTrip(h.pid);
    WordRoundTrip(h.tid);
    WordRoundTrip(h.id);
    assert s[50..58] == n[0..8] && s[59..63] == n[9..13] && s[63..67] == n[13..17];
    assert s[67..71] == n[17..21] && s[71..79] == n[21..29];
  }

  lemma {:induction false} HeaderTextSlices(h: Header)
    requires h.Valid()
    ensures HeaderText(h)[..17] == Pad(h.domain, 17) && HeaderText(h)[17..50] == Pad(h.name, 33)
  {
    hide Pad;
  }

  lemma {:induction false} ConcatSlices(a: Bytes, b: Bytes, c: Bytes, d: Bytes)
    ensures var s := a + b + c + d;
            && s[..|a|] == a && s[|a|..|a| + |b|] == b
            && s[|a| + |b|..|a| + |b| + |c|] == c && s[|a| + |b| + |c|..|a| + |b| + |c| + |d|] == d
            && (|a| == 1 ==> s[0] == a[0])
  {
    var s := a + b + c + d;
    assert s == a + (b + (c + d)) && s == (a + b) + (c + d) && s == (a + b + c) + d;
  }

  /** The fields of the trace block at their packed offsets. */
  lemma {:induction false} TraceFields(t: Trace)
    ensures var s := TraceBytes(t);
            && s[0] == t.flag && s[1..9] == LittleEndian(t.traceId, 8)
            && s[9..13] == LittleEndian(t.spanId, 4) && s[13..17] == LittleEndian(t.pSpanId, 4)
  {
    hide LittleEndian;
    ConcatSlices([t.flag], LittleEndian(t.traceId, 8), LittleEndian(t.spanId, 4), LittleEndian(t.pSpanId, 4));
  }

  /** The fields of a message at their offsets: size, two text fields, numbers, type and flag. */
  lemma {:induction false} MessageFields(h: Header, trace: Option<Trace>, params: seq<Param>)
    requires h.Valid()
    ensures var s := MessageBytes(h, trace, params);
            && s[..4] == LittleEndian(|s|, 4) && s[4..21] == Pad(h.domain, 17) && s[21..54] == Pad(h.name, 33)
            && s[54..62] == LittleEndian(h.timestamp, 8) && s[62] == h.timeZone
            && s[63..67] == LittleEndian(h.uid, 4) && s[67..71] == LittleEndian(h.pid, 4)
            && s[71..75] == LittleEndian(h.tid, 4) && s[75..83] == LittleEndian(h.id, 8)
            && s[83] == h.typeBits + (if h.isTraceOpened then 4 else 0)
            && (trace.None? ==> s[84..88] == LittleEndian(|params|, 4))
            && (trace.Some? ==> s[84..101] == TraceBytes(trace.value) && s[101..105] == LittleEndian(|params|, 4))
  {
    hide LittleEndian, ParamsBytes, HeaderText, HeaderNumbers, TraceBytes;
    var s, body := MessageBytes(h, trace, params), ParamsBytes(params);
    var size := 88 + |OptionalTraceBytes(trace)| + |body|;
    LayoutIs(size, h, trace, |params|, body, []);
    HeaderTextSlices(h);
    HeaderNumberSlices(h);
    var hb, after := HeaderBytes(h), OptionalTraceBytes(trace) + (LittleEndian(|params|, 4) + body + []);
    assert s == LittleEndian(size, 4) + hb + after by {
      assert s == Layout(size, h, trace, |params|, body);
      assert s + [] == s;
    }
    assert s[84..] == after;
    var t, n := HeaderText(h), HeaderNumbers(h);
    assert s == LittleEndian(size, 4) + t + (n + after);
    assert s[4..54] == t;
    assert s[54..] == n + after;
    PartOf(s, n + after, 54, 0, 30);
    HeaderOffsets(h, s);
  }

  lemma {:induction false} HeaderOffsets(h: Header, s: Bytes)
    requires h.Valid() && |s| >= 84 && s[4..54] == HeaderText(h) && s[54..84] == HeaderNumbers(h)
    ensures s[4..21] == HeaderText(h)[..17] && s[21..54] == HeaderText(h)[17..50]
    ensures var n := HeaderNumbers(h);
            && s[54..62] == n[..8] && s[62] == n[8] && s[63..67] == n[9..13] && s[67..71] == n[13..17]
            && s[71..75] == n[17..21] && s[75..83] == n[21..29] && s[83] == n[29]
  {
    hide HeaderText, HeaderNumbers;
    var t, n := HeaderText(h), HeaderNumbers(h);
    PartOf(s, t, 4, 0, 17);
    PartOf(s, t, 4, 17, 50);
    PartOf(s, n, 54, 0, 8);
    PartOf(s, n, 54, 8, 9);
    PartOf(s, n, 54, 9, 13);
    PartOf(s, n, 54, 13, 17);
    PartOf(s, n, 54, 17, 21);
    PartOf(s, n, 54, 21, 29);
    PartOf(s, n, 54, 29, 30);
  }

  lemma {:induction false} TraceRoundTrip(t: Trace)
    ensures DecodeTrace(TraceBytes(t)) == t
  {
    hide LittleEndian;
    ConcatSlices([t.flag], LittleEndian(t.traceId, 8), LittleEndian(t.spanId, 4), LittleEndian(t.pSpanId, 4));
    WordRoundTrip(t.traceId);
    WordRoundTrip(t.spanId);
    WordRoundTrip(t.pSpanId);
  }

  lemma {:induction false} BodyRoundTrip(blockSize: nat, h: Header, trace: Option<Trace>, params: seq<Param>, rest: Bytes)
    requires |params| < TWO_TO_THE_32 && forall p <- params :: p.value.Valid()
    ensures DecodeBody(blockSize, h, trace, LittleEndian(|params|, 4) + ParamsBytes(params) + rest)
            == Got(Message(blockSize, h, trace, params), rest)
  {
    hide LittleEndian, ParamsBytes, DecodeParams;
    var s := LittleEndian(|params|, 4) + ParamsBytes(params) + rest;
    WordRoundTrip(|params|);
    assert s[..4] == LittleEndian(|params|, 4) && s[4..] == ParamsBytes(params) + rest;
    ParamsRoundTrip(params, rest);
  }

  lemma {:induction false} AfterHeaderRoundTrip(blockSize: nat, h: Header, trace: Option<Trace>, body: Bytes)
    requires h.isTraceOpened == trace.Some?
    ensures DecodeAfterHeader(blockSize, h, OptionalTraceBytes(trace) + body)
            == DecodeBody(blockSize, h, trace, body)
  {
    hide TraceBytes, DecodeTrace, DecodeBody;
    var s := OptionalTraceBytes(trace) + body;
    if trace.Some? {
      TraceRoundTrip(trace.value);
      assert s[..17] == TraceBytes(trace.value) && s[17..] == body;
    } else {
      assert s == body;
    }
  }

  /** Every message decodes to the header, trace block and parameters it was built from. Bytes
      after it are left alone, and the first field comes back modulo its 32 bits. */
  lemma {:induction false} LayoutRoundTrip(blockSize: nat, h: Header, trace: Option<Trace>, params: seq<Param>, rest: Bytes)
    requires h.Valid() && h.isTraceOpened == trace.Some?
    requires |params| < TWO_TO_THE_32 && forall p <- params :: p.value.Valid()
    ensures DecodeMessage(Layout(blockSize, h, trace, |params|, ParamsBytes(params)) + rest)
            == Got(Message(blockSize % TWO_TO_THE_32, h, trace, params), rest)
  {
    hide *;
    var s := Layout(blockSize, h, trace, |params|, ParamsBytes(params)) + rest;
    var body := LittleEndian(|params|, 4) + ParamsBytes(params) + rest;
    var after := OptionalTraceBytes(trace) + body;
    LayoutIs(blockSize, h, trace, |params|, ParamsBytes(params), rest);
    Pow256Values();
    LittleEndianRoundTrip(blockSize, 4);
    HeaderRoundTrip(h);
    DecodeParts(LittleEndian(blockSize, 4), HeaderBytes(h), after);
    AfterHeaderRoundTrip(blockSize % TWO_TO_THE_32, h, trace, body);
    BodyRoundTrip(blockSize % TWO_TO_THE_32, h, trace, params, rest);
  }

  lemma {:induction false} LayoutIs(blockSize: int, h: Header, trace: Option<Trace>, count: int, params: Bytes, rest: Bytes)
    requires h.Valid()
    ensures Layout(blockSize, h, trace, count, params) + rest
            == LittleEndian(blockSize, 4) + HeaderBytes(h)
               + (OptionalTraceBytes(trace) + (LittleEndian(count, 4) + params + rest))
  {
    hide LittleEndian, HeaderBytes, OptionalTraceBytes;
  }

  lemma {:induction false} DecodeParts(size: Bytes, header: Bytes, after: Bytes)
    requires |size| == 4 && |header| == HEADER_LENGTH
    ensures DecodeMessage(size + header + after)
            == DecodeAfterHeader(FromLittleEndian(size), DecodeHeader(header), after)
  {
    hide FromLittleEndian, DecodeHeader, DecodeAfterHeader;
    var s := size + header + after;
    assert s[..4] == size && s[4..84] == header && s[84..] == after;
  }

  /** A built message decodes to exactly what went in, with no bytes left; the block size field
      is the length of the message modulo 32 bits. */
  lemma {:induction false} MessageRoundTrip(h: Header, trace: Option<Trace>, params: seq<Param>)
    requires h.Valid() && h.isTraceOpened == trace.Some?
    requires |params| < TWO_TO_THE_32 && forall p <- params :: p.value.Valid()
    ensures var s := MessageBytes(h, trace, params);
            DecodeMessage(s) == Got(Message(|s| % TWO_TO_THE_32, h, trace, params), [])
  {
    hide Layout, DecodeMessage;
    var s := MessageBytes(h, trace, params);
    LayoutRoundTrip(|s|, h, trace, params, []);
    assert s + [] == s;
  }

  /** Two different messages never have the same bytes. */
  lemma {:induction false} MessageInjective(h1: Header, t1: Option<Trace>, ps1: seq<Param>,
                         h2: Header, t2: Option<Trace>, ps2: seq<Param>)
    requires h1.Valid() && h1.isTraceOpened == t1.Some?
    requires h2.Valid() && h2.isTraceOpened == t2.Some?
    requires |ps1| < TWO_TO_THE_32 && forall p <- ps1 :: p.value.Valid()
    requires |ps2| < TWO_TO_THE_32 && forall p <- ps2 :: p.value.Valid()
    requires MessageBytes(h1, t1, ps1) == MessageBytes(h2, t2, ps2)
    ensures h1 == h2 && t1 == t2 && ps1 == ps2
  {
    hide MessageBytes, DecodeMessage;
    MessageRoundTrip(h1, t1, ps1);
    MessageRoundTrip(h2, t2, ps2);
  }
}
