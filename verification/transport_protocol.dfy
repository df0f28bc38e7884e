/** Concurrent senders: every `SendData` call is a thread of its own, and the threads interleave
    between any two accesses to the shared queue, the lock or the socket. */
module TransportProtocol {
  import opened ByteStrings
  import opened Sequences
  import opened Transport

  /** A call and the event it sends. */
  type Id = nat

  /** Where a call is: before, inside and after the locked retry loop, trying its own event,
      about to queue it, or finished. A held copy is the front that the retry loop sends. */
  datatype Phase =
    | BeforeRetry
    | LoopHead
    | Sending(copy: Id)
    | Popping
    | Trying(left: nat)
    | BeforeAdd
    | Done(success: bool)
  {
    predicate Holds() {
      LoopHead? || Sending? || Popping?
    }
  }

  datatype Exit = Resent(id: Id) | Dropped(id: Id)

  /** `delivered` are the events that got through, in order; `failed` is the log of events added to
      the queue and `exits` the log of events that left it. */
  datatype State = State(threads: map<Id, Phase>, lock: Option<Id>, queue: seq<Id>,
                         delivered: seq<Id>, failed: seq<Id>, exits: seq<Exit>)

  const INIT := State(map[], None, [], [], [], [])

  datatype Step =
    | Start(i: Id)
    | EnterRetry(i: Id)
    | TakeFront(i: Id)
    | RetryResult(i: Id, sent: bool)
    | PopFront(i: Id)
    | LeaveRetry(i: Id)
    | TryResult(i: Id, sent: bool)
    | Add(i: Id)

  predicate At(s: State, i: Id, p: Phase) {
    i in s.threads && s.threads[i] == p
  }

  predicate Enabled(s: State, step: Step) {
    match step
    case Start(i) => i !in s.threads
    case EnterRetry(i) => At(s, i, BeforeRetry) && s.lock == None
    case TakeFront(i) => At(s, i, LoopHead) && s.queue != []
    case RetryResult(i, _) => i in s.threads && s.threads[i].Sending?
    case PopFront(i) => At(s, i, Popping) && s.queue != []
    case LeaveRetry(i) => At(s, i, LoopHead) && s.queue == []
    case TryResult(i, _) => i in s.threads && s.threads[i].Trying? && s.threads[i].left > 0
    case Add(i) => At(s, i, BeforeAdd) && s.lock == None
  }

  function Move(s: State, i: Id, p: Phase): State {
    s.(threads := s.threads[i := p])
  }

  function Next(s: State, step: Step): State
    requires Enabled(s, step)
  {
    match step
    case Start(i) => Move(s, i, BeforeRetry)
    case EnterRetry(i) => Move(s, i, LoopHead).(lock := Some(i))
    case TakeFront(i) => Move(s, i, Sending(s.queue[0]))
    case RetryResult(i, sent) =>
      if sent then Move(s, i, Popping).(delivered := s.delivered + [s.threads[i].copy])
      else Move(s, i, Trying(RETRY_TIMES)).(lock := None)
    case PopFront(i) =>
      Move(s, i, LoopHead).(queue := s.queue[1..], exits := s.exits + [Resent(s.queue[0])])
    case LeaveRetry(i) => Move(s, i, Trying(RETRY_TIMES)).(lock := None)
    case TryResult(i, sent) =>
      if sent then Move(s, i, Done(true)).(delivered := s.delivered + [i])
      else if s.threads[i].left > 1 then Move(s, i, Trying(s.threads[i].left - 1))
      else Move(s, i, BeforeAdd)
    case Add(i) =>
      Move(s, i, Done(false)).(
        queue := Pushed(s.queue, i), failed := s.failed + [i],
        exits := if |s.queue| >= RETRY_QUEUE_SIZE then s.exits + [Dropped(s.queue[0])] else s.exits)
  }

  /** The state after a run, none when a step is not enabled in the state before it. */
  function Run(steps: seq<Step>): Option<State> {
    if steps == [] then Some(INIT)
    else match Run(steps[..|steps| - 1])
      case None => None
      case Some(s) => if Enabled(s, steps[|steps| - 1]) then Some(Next(s, steps[|steps| - 1])) else None
  }

  // ---------- what every step keeps

  function Ids(exits: seq<Exit>): (r: seq<Id>)
    ensures |r| == |exits| && forall i :: 0 <= i < |r| ==> r[i] == exits[i].id
  {
    seq(|exits|, i requires 0 <= i < |exits| => exits[i].id)
  }

  /** The lock holder has sent the front but not removed it yet. */
  predicate FrontGone(s: State) {
    s.lock.Some? && At(s, s.lock.value, Popping) && s.queue != []
  }

  ghost predicate LockInv(s: State) {
    && (forall i <- s.threads :: s.threads[i].Holds() <==> s.lock == Some(i))
    && (s.lock.Some? ==> s.lock.value in s.threads)
    && (forall i <- s.threads :: s.threads[i].Sending? ==> s.queue != [] && s.threads[i].copy == s.queue[0])
    && (forall i <- s.threads :: s.threads[i].Popping? ==> s.queue != [])
    && (forall i <- s.threads :: s.threads[i].Trying? ==> 1 <= s.threads[i].left <= RETRY_TIMES)
  }

  /** The queue is what is left of the failure log after removals at its front. */
  ghost predicate QueueInv(s: State) {
    && |s.queue| <= RETRY_QUEUE_SIZE
    && s.failed == Ids(s.exits) + s.queue
    && NoDuplicates(s.failed)
    && (forall i :: i in s.failed <==> At(s, i, Done(false)))
  }

  ghost predicate DeliveredInv(s: State) {
    && NoDuplicates(s.delivered)
    && (forall i :: i in s.delivered <==>
          At(s, i, Done(true)) || Resent(i) in s.exits || (FrontGone(s) && i == s.queue[0]))
  }

  ghost predicate Inv(s: State) {
    LockInv(s) && QueueInv(s) && DeliveredInv(s)
  }

  lemma {:induction false} LockStep(s: State, step: Step)
    requires Inv(s) && Enabled(s, step)
    ensures LockInv(Next(s, step))
  {
  }

  lemma {:induction false} QueueStep(s: State, step: Step)
    requires Inv(s) && Enabled(s, step)
    ensures QueueInv(Next(s, step))
  {
    hide LockInv, DeliveredInv;
    var t := Next(s, step);
    match step
    case PopFront(i) =>
      assert Ids(t.exits) == Ids(s.exits) + [s.queue[0]];
      assert s.queue == [s.queue[0]] + t.queue;
    case Add(i) =>
      assert i !in s.failed;
      AppendNoDuplicates(s.failed, i);
      if |s.queue| >= RETRY_QUEUE_SIZE {
        assert Ids(t.exits) == Ids(s.exits) + [s.queue[0]];
        assert s.queue == [s.queue[0]] + s.queue[1..];
      }
      assert t.failed == Ids(t.exits) + t.queue;
    case _ =>
      assert t.failed == s.failed && t.queue == s.queue && t.exits == s.exits;
  }

  /** An event in the queue has not left it. */
  lemma {:induction false} QueuedNotGone(s: State, k: nat)
    requires QueueInv(s) && k < |s.queue|
    ensures Resent(s.queue[k]) !in s.exits && Dropped(s.queue[k]) !in s.exits
    ensures At(s, s.queue[k], Done(false))
  {
    var n := |s.exits|;
    assert s.failed[n + k] == s.queue[k];
    assert forall j :: 0 <= j < n ==> s.failed[j] == s.exits[j].id;
  }

  lemma {:induction false} DeliveredStep(s: State, step: Step)
    requires Inv(s) && Enabled(s, step)
    ensures DeliveredInv(Next(s, step))
  {
    var t := Next(s, step);
    match step
    case RetryResult(i, sent) =>
      if sent {
        QueuedNotGone(s, 0);
        assert s.queue[0] !in s.delivered;
        AppendNoDuplicates(s.delivered, s.queue[0]);
      }
    case TryResult(i, sent) =>
      if sent {
        NotExited(s, i);
        assert i !in s.delivered;
        AppendNoDuplicates(s.delivered, i);
      }
    case PopFront(i) =>
      assert FrontGone(s) && !FrontGone(t);
    case Add(i) =>
      assert !FrontGone(s) && !FrontGone(t);
    case _ =>
  }

  /** Only events of failed calls ever leave the queue. */
  lemma {:induction false} NotExited(s: State, i: Id)
    requires QueueInv(s) && !At(s, i, Done(false))
    ensures Resent(i) !in s.exits && Dropped(i) !in s.exits && i !in s.queue
  {
    assert forall j :: 0 <= j < |s.exits| ==> s.failed[j] == s.exits[j].id;
    assert forall j :: 0 <= j < |s.queue| ==> s.failed[|s.exits| + j] == s.queue[j];
  }

  lemma {:induction false} RunInv(steps: seq<Step>)
    requires Run(steps).Some?
    ensures Inv(Run(steps).value)
  {
    if steps != [] {
      var init := steps[..|steps| - 1];
      RunInv(init);
      var s, step := Run(init).value, steps[|steps| - 1];
      LockStep(s, step);
      QueueStep(s, step);
      DeliveredStep(s, step);
    }
  }

  // ---------- the guarantees

  /** The events that wait in the queue: all of it, except a front that was just sent. */
  function Waiting(s: State): seq<Id> {
    if FrontGone(s) then s.queue[1..] else s.queue
  }

  predicate BeingTried(s: State, i: Id) {
    i in s.threads && !s.threads[i].Done?
  }

  predicate Exactly(a: bool, b: bool, c: bool, d: bool) {
    (a && !b && !c && !d) || (!a && b && !c && !d) || (!a && !b && c && !d) || (!a && !b && !c && d)
  }

  /** In every interleaving, every event is in exactly one place - being tried, delivered once,
      waiting in the queue, or dropped as the oldest - and a call that returned success has its
      event delivered and not queued. */
  lemma {:induction false} Conservation(steps: seq<Step>, i: Id)
    requires Run(steps).Some? && i in Run(steps).value.threads
    ensures var s := Run(steps).value;
            && Exactly(BeingTried(s, i), i in s.delivered, i in Waiting(s), Dropped(i) in s.exits)
            && NoDuplicates(s.delivered)
            && (At(s, i, Done(true)) ==> i in s.delivered && i !in s.queue)
            && (At(s, i, Done(false)) ==> i in s.failed)
  {
    RunInv(steps);
    PlaceOf(Run(steps).value, i);
  }

  lemma {:induction false} PlaceOf(s: State, i: Id)
    requires Inv(s) && i in s.threads
    ensures Exactly(BeingTried(s, i), i in s.delivered, i in Waiting(s), Dropped(i) in s.exits)
    ensures At(s, i, Done(true)) ==> i !in s.queue
  {
    if !At(s, i, Done(false)) {
      NotExited(s, i);
      assert FrontGone(s) ==> s.queue[0] in s.queue;
    } else {
      assert i in s.failed;
      var p :| 0 <= p < |s.failed| && s.failed[p] == i;
      var n := |s.exits|;
      if p < n {
        assert s.exits[p].id == i;
        ExitedOnce(s, p);
      } else {
        assert s.queue[p - n] == i;
        QueuedNotGone(s, p - n);
        QueuedOnce(s, p - n);
      }
    }
  }

  lemma {:induction false} QueuedOnce(s: State, k: nat)
    requires QueueInv(s) && k < |s.queue|
    ensures forall j :: 0 <= j < |s.queue| && s.queue[j] == s.queue[k] ==> j == k
  {
    assert forall j :: 0 <= j < |s.queue| ==> s.failed[|s.exits| + j] == s.queue[j];
  }

  lemma {:induction false} ExitedOnce(s: State, p: nat)
    requires QueueInv(s) && p < |s.exits|
    ensures s.exits[p].id !in s.queue
    ensures forall q :: 0 <= q < |s.exits| && s.exits[q].id == s.exits[p].id ==> q == p
  {
    assert forall j :: 0 <= j < |s.exits| ==> s.failed[j] == s.exits[j].id;
    assert forall j :: 0 <= j < |s.queue| ==> s.failed[|s.exits| + j] == s.queue[j];
  }

  /** In every interleaving, the queue has at most ten events, in the order in which they failed,
      and events leave it only at its front: the failure log is the exits followed by the queue. */
  lemma {:induction false} QueueOrder(steps: seq<Step>)
    requires Run(steps).Some?
    ensures var s := Run(steps).value;
            |s.queue| <= 10 && s.failed == Ids(s.exits) + s.queue && NoDuplicates(s.failed)
  {
    RunInv(steps);
  }

  /** An event is dropped only by an add to a full queue. */
  lemma {:induction false} DropsOnlyWhenFull(s: State, step: Step, i: Id)
    requires Inv(s) && Enabled(s, step)
    requires Dropped(i) !in s.exits && Dropped(i) in Next(s, step).exits
    ensures step.Add? && |s.queue| == 10 && s.queue[0] == i
  {
  }

  /** No deadlock: as long as some call is not finished, some step of an unfinished call is
      enabled. */
  lemma {:induction false} SomeStepEnabled(s: State, i: Id)
    requires Inv(s) && BeingTried(s, i)
    ensures exists step: Step :: Enabled(s, step) && !step.Start?
  {
    var j := if s.lock.Some? then s.lock.value else i;
    var step :=
      match s.threads[j]
      case BeforeRetry => EnterRetry(j)
      case LoopHead => if s.queue == [] then LeaveRetry(j) else TakeFront(j)
      case Sending(_) => RetryResult(j, true)
      case Popping => PopFront(j)
      case Trying(_) => TryResult(j, true)
      case BeforeAdd => Add(j)
      case Done(_) => Start(j);
    assert Enabled(s, step) && !step.Start?;
  }

  // ---------- one call on its own

  lemma {:induction false} Go(steps: seq<Step>, s: State, step: Step) returns (after: seq<Step>, t: State)
    requires Run(steps) == Some(s) && Enabled(s, step)
    ensures after == steps + [step] && t == Next(s, step) && Run(after) == Some(t)
  {
    after, t := steps + [step], Next(s, step);
    assert after[..|steps|] == steps;
  }

  /** The retry loop sends `n` events and then fails at the next one or finds the queue empty. */
  lemma {:induction false} RetryRun(steps: seq<Step>, s: State, i: Id, n: nat) returns (after: seq<Step>, t: State)
    requires Run(steps) == Some(s) && At(s, i, LoopHead) && n <= |s.queue|
    ensures Run(after) == Some(t)
    ensures t == s.(threads := s.threads[i := Trying(RETRY_TIMES)], lock := None, queue := s.queue[n..],
                    delivered := s.delivered + s.queue[..n], exits := t.exits)
    decreases n
  {
    hide Run;
    after, t := steps, s;
    if n > 0 {
      after, t := Go(after, t, TakeFront(i));
      after, t := Go(after, t, RetryResult(i, true));
      after, t := Go(after, t, PopFront(i));
      after, t := RetryRun(after, t, i, n - 1);
      assert s.queue[..n] == [s.queue[0]] + s.queue[1..][..n - 1];
    } else if s.queue == [] {
      after, t := Go(after, t, LeaveRetry(i));
    } else {
      after, t := Go(after, t, TakeFront(i));
      after, t := Go(after, t, RetryResult(i, false));
    }
  }

  /** The own tries: the last one succeeds, or all fail and the event is queued. */
  lemma {:induction false} TryRun(steps: seq<Step>, s: State, i: Id, left: nat, success: bool)
    returns (after: seq<Step>, t: State)
    requires Run(steps) == Some(s) && At(s, i, Trying(left)) && left > 0 && s.lock.None?
    ensures Run(after) == Some(t) && At(t, i, Done(success))
    ensures t.queue == if success then s.queue else Pushed(s.queue, i)
    ensures t.delivered == if success then s.delivered + [i] else s.delivered
    decreases left
  {
    hide Run;
    if success {
      after, t := Go(steps, s, TryResult(i, true));
    } else {
      after, t := Go(steps, s, TryResult(i, false));
      if left > 1 {
        after, t := TryRun(after, t, i, left - 1, false);
      } else {
        after, t := Go(after, t, Add(i));
      }
    }
  }

  /** The messages that events stand for. */
  function Payloads(payload: Id -> Bytes, events: seq<Id>): (r: seq<Bytes>)
    ensures |r| == |events| && forall k :: 0 <= k < |r| ==> r[k] == payload(events[k])
  {
    seq(|events|, k requires 0 <= k < |events| => payload(events[k]))
  }

  /** What `Transport.Sender.SendData` promises of a call is what a run of the steps of one thread
      does: any number of retried events and either result come from such a run. */
  lemma {:induction false} CallIsARun(steps: seq<Step>, i: Id, n: nat, success: bool, payload: Id -> Bytes)
    returns (after: seq<Step>)
    requires Run(steps).Some? && Run(steps).value.lock.None? && i !in Run(steps).value.threads
    requires n <= |Run(steps).value.queue|
    ensures Run(after).Some? && At(Run(after).value, i, Done(success))
    ensures var queue, delivered := Payloads(payload, Run(steps).value.queue), Payloads(payload, Run(steps).value.delivered);
            var t := Run(after).value;
            && Payloads(payload, t.delivered) == delivered + queue[..n] + (if success then [payload(i)] else [])
            && Payloads(payload, t.queue) == if success then queue[n..] else Pushed(queue[n..], payload(i))
  {
    hide Run;
    var s, t := Run(steps).value, Run(steps).value;
    after, t := Go(steps, t, Start(i));
    after, t := Go(after, t, EnterRetry(i));
    after, t := RetryRun(after, t, i, n);
    after, t := TryRun(after, t, i, RETRY_TIMES, success);
    PayloadsOf(payload, s.queue, s.delivered, i, n);
  }

  lemma {:induction false} PayloadsOf(payload: Id -> Bytes, queue: seq<Id>, delivered: seq<Id>, i: Id, n: nat)
    requires n <= |queue|
    ensures Payloads(payload, queue[n..]) == Payloads(payload, queue)[n..]
    ensures Payloads(payload, Pushed(queue[n..], i)) == Pushed(Payloads(payload, queue)[n..], payload(i))
    ensures Payloads(payload, delivered + queue[..n]) == Payloads(payload, delivered) + Payloads(payload, queue)[..n]
    ensures Payloads(payload, delivered + queue[..n] + [i])
            == Payloads(payload, delivered) + Payloads(payload, queue)[..n] + [payload(i)]
  {
  }
}
