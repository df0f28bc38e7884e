/** Choosing the socket for a built message from the header inside it. */
module EventSocketFactory {
  import opened ByteStrings
  import opened RawDataBuffer
  import opened WireFormat
  import opened EventFormat

  const FAULT: int := 1

  datatype EventInfo = EventInfo(domain: Bytes, name: Bytes, eventType: int)

  predicate IsHigherPriorityAafwkEvent(name: Bytes) {
    name == Ascii("APP_INPUT_BLOCK") || name == Ascii("BUSSINESS_THREAD_BLOCK_3S")
    || name == Ascii("BUSSINESS_THREAD_BLOCK_6S") || name == Ascii("LIFECYCLE_HALF_TIMEOUT")
    || name == Ascii("LIFECYCLE_TIMEOUT") || name == Ascii("THREAD_BLOCK_3S")
    || name == Ascii("THREAD_BLOCK_6S")
  }

  predicate IsHigherPriorityAceEvent(name: Bytes) {
    name == Ascii("UI_BLOCK_3S") || name == Ascii("UI_BLOCK_6S") || name == Ascii("UI_BLOCK_RECOVERED")
  }

  predicate IsHigherPriorityFrameworkEvent(name: Bytes) {
    name == Ascii("IPC_FULL") || name == Ascii("IPC_FULL_WARNING") || name == Ascii("SERVICE_BLOCK")
    || name == Ascii("SERVICE_TIMEOUT") || name == Ascii("SERVICE_WARNING")
  }

  predicate IsHigherPriorityEvent(e: EventInfo) {
    if e.domain == Ascii("AAFWK") then IsHigherPriorityAafwkEvent(e.name)
    else if e.domain == Ascii("ACE") then IsHigherPriorityAceEvent(e.name)
    else if e.domain == Ascii("FRAMEWORK") then IsHigherPriorityFrameworkEvent(e.name)
    else if e.domain == Ascii("RELIABILITY") then e.eventType == FAULT
    else if e.domain == Ascii("GRAPHIC") then e.name == Ascii("NO_DRAW")
    else if e.domain == Ascii("MULTIMODALINPUT") then e.name == Ascii("TARGET_POINTER_EVENT_FAILURE")
    else if e.domain == Ascii("POWER") then e.name == Ascii("SCREEN_ON_TIMEOUT")
    else if e.domain == Ascii("WINDOWMANAGER") then e.name == Ascii("NO_FOCUS_WINDOW")
    else if e.domain == Ascii("SCHEDULE_EXT") then e.name == Ascii("SYSTEM_LOAD_LEVEL_CHANGED")
    else false
  }

  function AafwkEvents(): set<Bytes> {
    {Ascii("APP_INPUT_BLOCK"), Ascii("BUSSINESS_THREAD_BLOCK_3S"), Ascii("BUSSINESS_THREAD_BLOCK_6S"),
     Ascii("LIFECYCLE_HALF_TIMEOUT"), Ascii("LIFECYCLE_TIMEOUT"), Ascii("THREAD_BLOCK_3S"), Ascii("THREAD_BLOCK_6S")}
  }

  function AceEvents(): set<Bytes> {
    {Ascii("UI_BLOCK_3S"), Ascii("UI_BLOCK_6S"), Ascii("UI_BLOCK_RECOVERED")}
  }

  function FrameworkEvents(): set<Bytes> {
    {Ascii("IPC_FULL"), Ascii("IPC_FULL_WARNING"), Ascii("SERVICE_BLOCK"), Ascii("SERVICE_TIMEOUT"),
     Ascii("SERVICE_WARNING")}
  }

  /** The domains with a single event of the fast socket. */
  function SingleEvents(): seq<(Bytes, Bytes)> {
    [(Ascii("GRAPHIC"), Ascii("NO_DRAW")), (Ascii("MULTIMODALINPUT"), Ascii("TARGET_POINTER_EVENT_FAILURE")),
     (Ascii("POWER"), Ascii("SCREEN_ON_TIMEOUT")), (Ascii("WINDOWMANAGER"), Ascii("NO_FOCUS_WINDOW")),
     (Ascii("SCHEDULE_EXT"), Ascii("SYSTEM_LOAD_LEVEL_CHANGED"))]
  }

  lemma {:induction false} NamesOfDomains(name: Bytes)
    ensures IsHigherPriorityAafwkEvent(name) <==> name in AafwkEvents()
    ensures IsHigherPriorityAceEvent(name) <==> name in AceEvents()
    ensures IsHigherPriorityFrameworkEvent(name) <==> name in FrameworkEvents()
  {
    hide Ascii;
  }

  lemma {:induction false} DomainsDiffer()
    ensures Ascii("AAFWK") != Ascii("POWER")
  {
    assert Ascii("AAFWK")[0] != Ascii("POWER")[0];
  }

  /** The priority predicate holds of exactly the listed events and the faults of one domain. */
  lemma {:induction false} FastEventsIff(e: EventInfo)
    ensures IsHigherPriorityEvent(e) <==>
            || (e.domain == Ascii("AAFWK") && e.name in AafwkEvents())
            || (e.domain == Ascii("ACE") && e.name in AceEvents())
            || (e.domain == Ascii("FRAMEWORK") && e.name in FrameworkEvents())
            || (e.domain, e.name) in SingleEvents()
            || (e.domain == Ascii("RELIABILITY") && e.eventType == 1)
  {
    NamesOfDomains(e.name);
    DomainsDiffer();
    hide Ascii, AafwkEvents, AceEvents, FrameworkEvents, IsHigherPriorityAafwkEvent, IsHigherPriorityAceEvent,
         IsHigherPriorityFrameworkEvent;
  }

  /** What the reader sees: C strings that start at the two text fields, and the type bits. */
  function ReadInfo(s: Bytes): EventInfo {
    if |s| < 4 + HEADER_LENGTH then EventInfo([], [], FAULT)
    else EventInfo(CString(s[4..84]), CString(s[21..84]), s[83] % 4 + 1)
  }

  /** The reader takes the bytes up to the first NUL, or to the end of the header without one. */
  lemma {:induction false} ReadInfoIs(s: Bytes)
    requires |s| >= 84
    ensures var info := ReadInfo(s); var (d, n) := (|info.domain|, |info.name|);
            && info.domain == s[4..4 + d] && 0 !in info.domain && (d == 80 || s[4 + d] == 0)
            && info.name == s[21..21 + n] && 0 !in info.name && (n == 63 || s[21 + n] == 0)
            && info.eventType == s[83] % 4 + 1
  {
    var info := ReadInfo(s);
    hide CString;
    var (d, n) := (|info.domain|, |info.name|);
    var text, name := s[4..84], s[21..84];
    PartOf(s, text, 4, 0, d);
    PartOf(s, text, 4, d, 80);
    PartOf(s, name, 21, 0, n);
    PartOf(s, name, 21, n, 63);
  }

  /** Data too short for a header goes to the normal socket. */
  lemma {:induction false} ShortDataIsNotFast(s: Bytes)
    requires |s| < 84
    ensures !IsHigherPriorityEvent(ReadInfo(s))
  {
  }

  method ParseEventInfo(data: RawData) returns (info: EventInfo)
    requires data.Valid()
    ensures info == ReadInfo(data.Contents())
  {
    info := EventInfo([], [], FAULT);
    if data.len < 4 + HEADER_LENGTH {
      return;
    }
    var header := data.data[4..84];
    info := EventInfo(CString(header), CString(header[17..]), header[79] % 4 + 1);
    assert data.Contents()[4..84] == header && data.Contents()[21..84] == header[17..];
  }

  /** True for the fast socket. */
  method GetEventSocket(data: RawData) returns (fast: bool)
    requires data.Valid()
    ensures fast <==> IsHigherPriorityEvent(ReadInfo(data.Contents()))
  {
    var info := ParseEventInfo(data);
    return IsHigherPriorityEvent(info);
  }

  lemma {:induction false} CStringOfField(s: Bytes, n: nat, after: Bytes)
    requires |s| < n && 0 !in s
    ensures CString(Pad(s, n) + after) == s
  {
    if s != [] {
      CStringOfField(s[1..], n - 1, after);
      assert (Pad(s, n) + after)[1..] == Pad(s[1..], n - 1) + after;
    }
  }

  /** The reader recovers the domain and the name of every laid-out message, whatever its block
      size, trace block, parameters and trailing bytes are, and the type field plus one. */
  lemma {:induction false} HeaderReadBack(blockSize: int, h: Header, trace: Option<Trace>, count: int, params: Bytes, rest: Bytes)
    requires h.Valid()
    ensures ReadInfo(Layout(blockSize, h, trace, count, params) + rest)
            == EventInfo(h.domain, h.name, h.typeBits + 1)
  {
    hide LittleEndian, OptionalTraceBytes, CString, Pad;
    var s := Layout(blockSize, h, trace, count, params) + rest;
    LayoutIs(blockSize, h, trace, count, params, rest);
    var hb := HeaderBytes(h);
    assert s[4..84] == hb && s[83] == hb[79];
    assert s[21..84] == hb[17..];
    var d, n := Pad(h.domain, 17), Pad(h.name, 33);
    HeaderTextSlices(h);
    assert hb == d + (n + HeaderNumbers(h));
    assert hb[17..] == n + HeaderNumbers(h);
    CStringOfField(h.domain, 17, n + HeaderNumbers(h));
    CStringOfField(h.name, 33, HeaderNumbers(h));
    assert hb[79] == h.typeBits + (if h.isTraceOpened then 4 else 0);
  }

  /** The 2-bit type field gives the type back exactly for the four event types, so messages of
      these types go to the socket that their domain, name and type ask for. */
  lemma {:induction false} RoutingOfMessage(h: Header, trace: Option<Trace>, params: seq<Param>, eventType: int)
    requires h.Valid() && h.typeBits == (eventType - 1) % 4
    ensures var info := ReadInfo(MessageBytes(h, trace, params));
            && info.domain == h.domain && info.name == h.name
            && (info.eventType == eventType <==> 1 <= eventType <= 4)
            && (1 <= eventType <= 4 ==>
                  IsHigherPriorityEvent(info) == IsHigherPriorityEvent(EventInfo(h.domain, h.name, eventType)))
  {
    hide ReadInfo, IsHigherPriorityEvent, Layout, ParamsBytes, OptionalTraceBytes;
    var body := ParamsBytes(params);
    var size := 88 + |OptionalTraceBytes(trace)| + |body|;
    HeaderReadBack(size, h, trace, |params|, body, []);
    var s := MessageBytes(h, trace, params);
    assert s == Layout(size, h, trace, |params|, body) && s + [] == s;
  }
}
