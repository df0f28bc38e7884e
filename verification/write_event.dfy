/** The whole way of an event: past the rate limiter, into a message, and to the log socket. */
module EventWriter {
  import opened ByteStrings
  import opened Def
  import opened EventBases
  import opened EventFormat
  import opened HiSysEvents
  import opened LruCache
  import opened StringFilters
  import opened Transport
  import opened WireFormat
  import opened WriteController

  /** The message that the selected pairs make. */
  function Meaning(domain: Bytes, eventName: Bytes, eventType: int, timeStamp: U64, info: ProcessInfo,
                   hitrace: Option<Trace>, kvs: seq<KeyValue>, size: nat): Message
    requires AllValid(kvs)
  {
    Message(size % TWO_TO_THE_32,
            Header(domain := domain, name := eventName, timestamp := timeStamp, timeZone := info.timeZone,
                   uid := info.uid, pid := info.pid, tid := info.tid, id := 0,
                   typeBits := (eventType - 1) % 4, isTraceOpened := hitrace.Some?),
            hitrace, Selected(kvs, 0))
  }

  /** A send that got `n` queued messages through first, and then the message itself or not. */
  predicate Sends(delivered: seq<Bytes>, queue: seq<Bytes>, data: Bytes, n: nat, success: bool,
                  deliveredAfter: seq<Bytes>, queueAfter: seq<Bytes>)
  {
    && n <= |queue|
    && deliveredAfter == delivered + queue[..n] + (if success then [data] else [])
    && queueAfter == if success then queue[n..] else Pushed(queue[n..], data)
  }

  /** The variadic `Write`: a call that the limiter discards, and a call with a bad name, sends
      nothing and leaves the retry queue alone. When no allocation fails, any other call makes a
      message that means exactly what was passed, delivers or queues it unless it is too long, and
      returns the last warning, or the error of the send. `n` queued messages go out before it. */
  method Write(controller: Controller, kernel: Kernel, sender: Sender, c: Call,
               domain: Bytes, eventName: Bytes, eventType: int, info: ProcessInfo,
               hitrace: Option<Trace>, canAlloc: nat -> bool, kvs: seq<KeyValue>)
    returns (code: int, message: Option<Bytes>, ghost n: nat)
    requires AllValid(kvs) && |sender.retryDataList| <= RETRY_QUEUE_SIZE
    requires controller.cache.Valid() && controller.cache.capacity == LRU_CACHE_DEFAULT_SIZE
    modifies controller.cache, kernel, sender
    ensures controller.cache.Valid()
    ensures controller.cache.Contents() == CallState(old(controller.cache.Contents()), c)
    ensures |sender.retryDataList| <= RETRY_QUEUE_SIZE
    ensures code == -6 <==>
            Verdict(GetRecord(old(controller.cache.Contents()), c.key), c) == 0
    ensures code == -6 ==> message.None?
    ensures message.None? || |message.value| > 393216 ==> unchanged(sender) && unchanged(kernel)
    ensures code != -6 ==>
              && (!IsName(domain, 16) ==> message.None? && code == -1)
              && (IsName(domain, 16) && !IsName(eventName, 32)
                  ==> message.None? && code == -2)
              && (IsName(domain, 16) && IsName(eventName, 32) && message.None?
                  ==> code == -9 && exists n :: !canAlloc(n))
    ensures message.Some? && (forall n :: canAlloc(n)) ==>
              && DecodeMessage(message.value) ==
                 Got(Meaning(domain, eventName, eventType, c.time, info, hitrace, kvs, |message.value|), [])
              && (|message.value| > 393216 ==> code == -4)
              && (|message.value| <= 393216 ==>
                  && (code == LastOr(AllWarnings(kvs, 0), 0) || code == -3 || code == -5)
                  && Sends(old(kernel.delivered), old(sender.retryDataList), message.value, n, code >= 0,
                           kernel.delivered, sender.retryDataList)
                  && (var (k, next) := Retry(kernel.opens, kernel.answers, old(kernel.calls),
                                             |old(sender.retryDataList)|);
                      n == k && (code >= 0 <==> Tries(kernel.opens, kernel.answers, next, 3).0 == 0))
                  && ((forall i :: kernel.opens(i) && kernel.answers(i) == Sent) ==>
                        code >= 0 && sender.retryDataList == []))
  {
    hide DecodeMessage, Selected, AllWarnings, LastOr, CallState, IsName, EventWroteLruCache.Valid, EventWroteLruCache.Contents;
    n := 0;
    var timeStamp := controller.CheckLimitWritingEvent(c);
    if timeStamp == INVALID_TIME_STAMP {
      return ERR_WRITE_IN_HIGH_FREQ, None, 0;
    }
    code, message := HiSysEvents.Write(domain, eventName, eventType, timeStamp, info, hitrace, canAlloc, kvs);
    if message.None? {
      return;
    }
    var ret;
    ret, n := sender.SendData(kernel, message.value);
    if ret != SUCCESS {
      code := ret;
    }
  }
}
