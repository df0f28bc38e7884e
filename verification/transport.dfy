/** Sending a message, with a bounded queue of messages whose sending failed. */
module Transport {
  import opened ByteStrings
  import opened Def

  const RETRY_QUEUE_SIZE: nat := 10
  const RETRY_TIMES: nat := 3

  /** The queue after one more failure: the oldest entry makes room in a full queue. */
  function Pushed<T>(queue: seq<T>, x: T): (r: seq<T>)
    ensures |queue| <= RETRY_QUEUE_SIZE ==> |r| <= RETRY_QUEUE_SIZE
  {
    (if |queue| >= RETRY_QUEUE_SIZE then queue[1..] else queue) + [x]
  }

  /** What `sendto` reports: bytes sent, a temporary error (EAGAIN, EWOULDBLOCK, EINTR), or another
      error. */
  datatype Outcome = Sent | Temporary | Permanent

  // ---------- attempts, as functions of the kernel's answers

  /** Up to `left` calls of `sendto`, the first one being system call `at`: whether the data was
      sent, and the number of the next system call. */
  function TryAnswers(answers: nat -> Outcome, at: nat, left: nat): (bool, nat)
    requires left > 0
    decreases left
  {
    if answers(at) == Sent then (true, at + 1)
    else if answers(at) == Temporary && left > 1 then TryAnswers(answers, at + 1, left - 1)
    else (false, at + 1)
  }

  /** One attempt: a socket, and `sendto` on it. */
  function Attempt(opens: nat -> bool, answers: nat -> Outcome, at: nat): (r: (int, nat))
    ensures r.0 == SUCCESS || r.0 == ERR_DOES_NOT_INIT || r.0 == ERR_SEND_FAIL
  {
    if !opens(at) then (ERR_DOES_NOT_INIT, at + 1)
    else
      var (sent, next) := TryAnswers(answers, at + 1, RETRY_TIMES);
      (if sent then SUCCESS else ERR_SEND_FAIL, next)
  }

  /** The `k`-th answer of at most three is this one, and those before it were temporary errors. */
  predicate StopsAt(answers: nat -> Outcome, at: nat, k: int, outcome: Outcome) {
    1 <= k <= 3 && answers(at + k) == outcome && forall i :: at < i < at + k ==> answers(i) == Temporary
  }

  /** An attempt goes on exactly while errors are temporary, for three answers at most: it succeeds
      at an answer that says sent, and fails without a socket, at a permanent error, or at the
      third temporary one. */
  lemma {:induction false} AttemptMeaning(opens: nat -> bool, answers: nat -> Outcome, at: nat)
    ensures var (ret, next) := Attempt(opens, answers, at);
            && (ret == ERR_DOES_NOT_INIT ==> !opens(at) && next == at + 1)
            && (ret == SUCCESS ==> opens(at) && StopsAt(answers, at, next - at - 1, Sent))
            && (ret == ERR_SEND_FAIL ==>
                  && opens(at)
                  && (StopsAt(answers, at, next - at - 1, Permanent)
                      || (next == at + 4 && StopsAt(answers, at, 3, Temporary))))
  {
    if opens(at) {
      assert TryAnswers(answers, at + 1, 3) ==
             if answers(at + 1) == Sent then (true, at + 2)
             else if answers(at + 1) == Permanent then (false, at + 2)
             else TryAnswers(answers, at + 2, 2);
      assert TryAnswers(answers, at + 2, 2) ==
             if answers(at + 2) == Sent then (true, at + 3)
             else if answers(at + 2) == Permanent then (false, at + 3)
             else TryAnswers(answers, at + 3, 1);
    }
  }

  predicate Refused(opens: nat -> bool, answers: nat -> Outcome, at: nat) {
    Attempt(opens, answers, at).0 != SUCCESS
  }

  /** `k` attempts in a row that are refused. */
  predicate RefusedInARow(opens: nat -> bool, answers: nat -> Outcome, at: nat, k: nat, next: nat)
    decreases k
  {
    if k == 0 then at == next
    else Refused(opens, answers, at) && RefusedInARow(opens, answers, Attempt(opens, answers, at).1, k - 1, next)
  }

  /** Sending `m` queued messages until an attempt is refused: how many go out. */
  function Retry(opens: nat -> bool, answers: nat -> Outcome, at: nat, m: nat): (r: (nat, nat))
    ensures r.0 <= m
    decreases m
  {
    if m == 0 then (0, at)
    else
      var (ret, next) := Attempt(opens, answers, at);
      if ret != SUCCESS then (0, next)
      else
        var (n, end) := Retry(opens, answers, next, m - 1);
        (n + 1, end)
  }

  lemma {:induction false} RetryStep(opens: nat -> bool, answers: nat -> Outcome, at: nat, m: nat)
    ensures m == 0 ==> Retry(opens, answers, at, m) == (0, at)
    ensures var (ret, next) := Attempt(opens, answers, at);
            m > 0 ==> Retry(opens, answers, at, m) ==
                      if ret != SUCCESS then (0, next)
                      else var (n, end) := Retry(opens, answers, next, m - 1); (n + 1, end)
  {
  }

  /** A message is left only when the last attempt was refused; when none ever is, none is left. */
  lemma {:induction false} RetryMeaning(opens: nat -> bool, answers: nat -> Outcome, at: nat, m: nat)
    returns (last: nat)
    ensures var (n, next) := Retry(opens, answers, at, m);
            && (n < m ==> Refused(opens, answers, last) && Attempt(opens, answers, last).1 == next)
            && ((forall k :: !Refused(opens, answers, k)) ==> n == m)
    decreases m
  {
    last := at;
    if m > 0 && !Refused(opens, answers, at) {
      last := RetryMeaning(opens, answers, Attempt(opens, answers, at).1, m - 1);
    }
  }

  /** Trying one message until an attempt succeeds, `left` times at most. */
  function Tries(opens: nat -> bool, answers: nat -> Outcome, at: nat, left: nat): (int, nat)
    requires left > 0
    decreases left
  {
    var (ret, next) := Attempt(opens, answers, at);
    if ret == SUCCESS || left == 1 then (ret, next) else Tries(opens, answers, next, left - 1)
  }

  /** A message is given up exactly after `left` refused attempts in a row, and sent at the first
      one that is not refused. */
  lemma {:induction false} TriesMeaning(opens: nat -> bool, answers: nat -> Outcome, at: nat, left: nat)
    returns (k: nat, last: nat)
    requires left > 0
    ensures var (ret, next) := Tries(opens, answers, at, left);
            && k < left && RefusedInARow(opens, answers, at, k, last) && Attempt(opens, answers, last) == (ret, next)
            && (ret != SUCCESS ==> k == left - 1)
    decreases left
  {
    k, last := 0, at;
    if Refused(opens, answers, at) && left > 1 {
      k, last := TriesMeaning(opens, answers, Attempt(opens, answers, at).1, left - 1);
      k := k + 1;
    }
  }

  /** A kernel that opens every socket and sends everything refuses nothing. */
  lemma {:induction false} WillingRefusesNothing(opens: nat -> bool, answers: nat -> Outcome)
    requires forall k :: opens(k) && answers(k) == Sent
    ensures forall k :: !Refused(opens, answers, k)
  {
  }

  // ---------- the sender

  /** The kernel side: arbitrary answers to successive system calls, and what got through. */
  class Kernel {
    const opens: nat -> bool
    const answers: nat -> Outcome
    var calls: nat
    var sends: nat
    var delivered: seq<Bytes>

    constructor (opens: nat -> bool, answers: nat -> Outcome)
      ensures this.opens == opens && this.answers == answers && calls == sends == 0 && delivered == []
    {
      this.opens, this.answers := opens, answers;
      calls, sends, delivered := 0, 0, [];
    }

    method Socket() returns (ok: bool)
      modifies this`calls
      ensures ok == opens(old(calls)) && calls == old(calls) + 1
    {
      ok := opens(calls);
      calls := calls + 1;
    }

    method SendTo(data: Bytes) returns (r: Outcome)
      modifies this`calls, this`sends, this`delivered
      ensures r == answers(old(calls)) && calls == old(calls) + 1 && sends == old(sends) + 1
      ensures delivered == if r == Sent then old(delivered) + [data] else old(delivered)
    {
      r := answers(calls);
      calls := calls + 1;
      sends := sends + 1;
      if r == Sent {
        delivered := delivered + [data];
      }
    }
  }

  class Sender {
    var retryDataList: seq<Bytes>

    constructor ()
      ensures retryDataList == []
    {
      retryDataList := [];
    }

    /** One socket, and up to three `sendto` calls while the error is temporary. */
    method SendToHiSysEventDataSource(kernel: Kernel, data: Bytes) returns (ret: int)
      modifies kernel
      ensures ret == SUCCESS || ret == ERR_DOES_NOT_INIT || ret == ERR_SEND_FAIL
      ensures kernel.delivered == if ret == SUCCESS then old(kernel.delivered) + [data] else old(kernel.delivered)
      ensures ret == ERR_DOES_NOT_INIT <==> !kernel.opens(old(kernel.calls))
      ensures ret == ERR_DOES_NOT_INIT ==> kernel.sends == old(kernel.sends)
      ensures ret != ERR_DOES_NOT_INIT ==> 1 <= kernel.sends - old(kernel.sends) <= 3
      ensures (ret, kernel.calls) == Attempt(kernel.opens, kernel.answers, old(kernel.calls))
    {
      var ok := kernel.Socket();
      if !ok {
        return ERR_DOES_NOT_INIT;
      }
      var retryTimes := RETRY_TIMES;
      var sendRet := kernel.SendTo(data);
      retryTimes := retryTimes - 1;
      while sendRet == Temporary && retryTimes > 0
        invariant 0 <= retryTimes <= RETRY_TIMES - 1
        invariant kernel.sends == old(kernel.sends) + RETRY_TIMES - retryTimes
        invariant kernel.calls > 0 && sendRet == kernel.answers(kernel.calls - 1)
        invariant TryAnswers(kernel.answers, old(kernel.calls) + 1, RETRY_TIMES)
               == if sendRet == Temporary && retryTimes > 0 then TryAnswers(kernel.answers, kernel.calls, retryTimes)
                  else (sendRet == Sent, kernel.calls)
        invariant kernel.delivered == if sendRet == Sent then old(kernel.delivered) + [data] else old(kernel.delivered)
      {
        sendRet := kernel.SendTo(data);
        retryTimes := retryTimes - 1;
      }
      return if sendRet == Sent then SUCCESS else ERR_SEND_FAIL;
    }

    method AddFailedData(data: Bytes)
      modifies this
      ensures retryDataList == Pushed(old(retryDataList), data)
    {
      if |retryDataList| >= RETRY_QUEUE_SIZE {
        retryDataList := retryDataList[1..];
      }
      retryDataList := retryDataList + [data];
    }

    /** Sends queued messages from the front until one fails or none is left. */
    method RetrySendFailedData(kernel: Kernel) returns (ghost n: nat)
      modifies this, kernel
      ensures n <= |old(retryDataList)|
      ensures kernel.delivered == old(kernel.delivered) + old(retryDataList)[..n]
      ensures retryDataList == old(retryDataList)[n..]
      ensures (n, kernel.calls) == Retry(kernel.opens, kernel.answers, old(kernel.calls), |old(retryDataList)|)
    {
      hide Retry, Attempt;
      n := 0;
      while retryDataList != []
        invariant n <= |old(retryDataList)|
        invariant kernel.delivered == old(kernel.delivered) + old(retryDataList)[..n]
        invariant retryDataList == old(retryDataList)[n..]
        invariant Retry(kernel.opens, kernel.answers, old(kernel.calls), |old(retryDataList)|)
               == (var (k, next) := Retry(kernel.opens, kernel.answers, kernel.calls, |retryDataList|); (n + k, next))
        decreases |retryDataList|
      {
        var rawData := retryDataList[0];
        RetryStep(kernel.opens, kernel.answers, kernel.calls, |retryDataList|);
        var ret := SendToHiSysEventDataSource(kernel, rawData);
        if ret != SUCCESS {
          return;
        }
        retryDataList := retryDataList[1..];
        n := n + 1;
      }
      RetryStep(kernel.opens, kernel.answers, kernel.calls, 0);
    }

    /** First retries the queue, then tries the message up to three times, and queues it when that
        fails. `n` queued messages go out before it. */
    method SendData(kernel: Kernel, data: Bytes) returns (ret: int, ghost n: nat)
      requires |retryDataList| <= 10
      modifies this, kernel
      ensures |retryDataList| <= 10 && n <= |old(retryDataList)|
      ensures data == [] ==> ret == ERR_EMPTY_EVENT
      ensures |data| > 393216 ==> ret == ERR_OVER_SIZE
      ensures ret == ERR_EMPTY_EVENT || ret == ERR_OVER_SIZE ==> unchanged(this) && unchanged(kernel)
      ensures 0 < |data| <= 393216 ==>
                ret == SUCCESS || ret == ERR_DOES_NOT_INIT || ret == ERR_SEND_FAIL
      ensures 0 < |data| <= 393216 ==>
        && kernel.delivered == old(kernel.delivered) + old(retryDataList)[..n]
                               + (if ret == SUCCESS then [data] else [])
        && retryDataList == (if ret == SUCCESS then old(retryDataList)[n..]
                             else Pushed(old(retryDataList)[n..], data))
        && var (k, next) := Retry(kernel.opens, kernel.answers, old(kernel.calls), |old(retryDataList)|);
           n == k && (ret, kernel.calls) == Tries(kernel.opens, kernel.answers, next, 3)
      ensures 0 < |data| <= 393216 && (forall k :: kernel.opens(k) && kernel.answers(k) == Sent) ==>
                n == |old(retryDataList)| && ret == SUCCESS && retryDataList == []
    {
      n := 0;
      if data == [] {
        return ERR_EMPTY_EVENT, 0;
      }
      if |data| > MAX_DATA_SIZE {
        return ERR_OVER_SIZE, 0;
      }
      n := RetrySendFailedData(kernel);
      var tryTimes := RETRY_TIMES;
      ret := SUCCESS;
      ghost var before, start := kernel.delivered, kernel.calls;
      if forall k :: kernel.opens(k) && kernel.answers(k) == Sent {
        WillingRefusesNothing(kernel.opens, kernel.answers);
        var _ := RetryMeaning(kernel.opens, kernel.answers, old(kernel.calls), |old(retryDataList)|);
        assert !Refused(kernel.opens, kernel.answers, start);
      }
      while tryTimes > 0
        invariant ret == SUCCESS <==> tryTimes == RETRY_TIMES
        invariant ret == SUCCESS || ret == ERR_DOES_NOT_INIT || ret == ERR_SEND_FAIL
        invariant kernel.delivered == before && retryDataList == old(retryDataList)[n..]
        invariant tryTimes <= RETRY_TIMES
        invariant Tries(kernel.opens, kernel.answers, start, RETRY_TIMES)
               == if tryTimes > 0 then Tries(kernel.opens, kernel.answers, kernel.calls, tryTimes)
                  else (ret, kernel.calls)
      {
        tryTimes := tryTimes - 1;
        ret := SendToHiSysEventDataSource(kernel, data);
        if ret == SUCCESS {
          return;
        }
      }
      AddFailedData(data);
    }
  }
}
