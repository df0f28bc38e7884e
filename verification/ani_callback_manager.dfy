/** The synchronous callback manager: a task runs on the caller's stack, and its release drains the
    rest of the queue by recursion. */
module AniCallbackManagers {
  import opened ByteStrings
  import opened CallbackProtocol

  /** What draining a queue comes to: the tasks that run, what stays queued, and whether a release
      function of a task was called. It stops in front of a task without a context, and for good
      after a task with its own release function, which stays at the front. */
  datatype Drained = Drained(ran: seq<Task>, rest: seq<Task>, finished: bool)

  function Drain(queue: seq<Task>): Drained {
    if queue == [] then Drained([], [], false)
    else if queue[0].context.None? then Drained([], queue, false)
    else if queue[0].ownRelease then Drained([queue[0]], queue, true)
    else
      var d := Drain(queue[1..]);
      d.(ran := [queue[0]] + d.ran)
  }

  /** Draining runs a prefix of the queue, each task once and in order; it runs everything when all
      tasks have a context and none has its own release function. */
  lemma {:induction false} DrainRunsPrefix(queue: seq<Task>)
    ensures var d := Drain(queue);
            && d.ran <= queue
            && d.rest == queue[(if d.finished then |d.ran| - 1 else |d.ran|)..]
            && (d.finished ==> d.ran != [] && d.ran[|d.ran| - 1].ownRelease)
            && (forall i :: 0 <= i < |d.ran| - 1 ==> !d.ran[i].ownRelease)
            && (!d.finished ==> d.rest == [] || d.rest[0].context.None?)
            && ((forall t <- queue :: t.context.Some? && !t.ownRelease) ==> d == Drained(queue, [], false))
  {
    DrainCuts(queue);
    DrainStops(queue);
    DrainsAll(queue);
  }

  lemma {:induction false} DrainCuts(queue: seq<Task>)
    ensures var d := Drain(queue);
            && (d.finished ==> d.ran != [])
            && d.ran <= queue
            && d.rest == queue[(if d.finished then |d.ran| - 1 else |d.ran|)..]
  {
    if queue != [] && queue[0].context.Some? && !queue[0].ownRelease {
      DrainCuts(queue[1..]);
      DrainStep(queue);
      var r := Drain(queue[1..]);
      hide Drain;
      var n := if r.finished then |r.ran| - 1 else |r.ran|;
      assert queue[1..][n..] == queue[n + 1..];
    }
  }

  lemma {:induction false} DrainStops(queue: seq<Task>)
    ensures var d := Drain(queue);
            && (d.finished ==> d.ran != [] && d.ran[|d.ran| - 1].ownRelease)
            && (forall i :: 0 <= i < |d.ran| - 1 ==> !d.ran[i].ownRelease)
            && (!d.finished ==> d.rest == [] || d.rest[0].context.None?)
  {
    if queue != [] && queue[0].context.Some? && !queue[0].ownRelease {
      DrainStops(queue[1..]);
      DrainStep(queue);
      hide Drain;
    }
  }

  lemma {:induction false} DrainsAll(queue: seq<Task>)
    ensures (forall t <- queue :: t.context.Some? && !t.ownRelease) ==> Drain(queue) == Drained(queue, [], false)
  {
    if queue != [] && queue[0].context.Some? && !queue[0].ownRelease {
      DrainsAll(queue[1..]);
      DrainStep(queue);
      hide Drain;
      assert queue == [queue[0]] + queue[1..];
    }
  }

  lemma {:induction false} DrainStep(queue: seq<Task>)
    requires queue != [] && queue[0].context.Some? && !queue[0].ownRelease
    ensures var d := Drain(queue[1..]);
            Drain(queue) == Drained([queue[0]] + d.ran, d.rest, d.finished)
  {
  }

  class AniCallbackManager {
    var inCalling: bool
    var isReleased: bool
    var callbacks: seq<Task>
    /** The callback and release fields of the contexts. */
    var slots: map<Context, Task>
    /** The callbacks that ran, and whether a release function of a task was called. */
    var ran: seq<Task>
    var finished: bool

    constructor ()
      ensures Idle() && !isReleased && !finished && ran == [] && callbacks == []
    {
      inCalling, isReleased, callbacks, slots := false, false, [], map[];
      ran, finished := [], false;
    }

    /** Between calls: nothing to run, or stopped by a release function. */
    predicate Idle()
      reads this
    {
      if finished then inCalling else !inCalling && (callbacks == [] || callbacks[0].context.None?)
    }

    /** Queues a task; when no task is running, runs it and everything behind it, in the virtual
        machine of its context. */
    method Add(task: Task)
      requires isReleased || Idle()
      requires isReleased || finished || task.context.Some?
      modifies this
      ensures isReleased == old(isReleased)
      ensures isReleased ==> unchanged(this)
      ensures !isReleased ==> Idle()
      ensures !isReleased && old(finished) ==> finished && ran == old(ran) && callbacks == old(callbacks) + [task]
      ensures !isReleased && !old(finished) ==>
                var d := Drain(old(callbacks) + [task]);
                ran == old(ran) + d.ran && callbacks == d.rest && finished == d.finished
    {
      if isReleased {
        return;
      }
      callbacks := callbacks + [task];
      if inCalling {
        return;
      }
      ImmediateRun(false);
      DrainRunsPrefix(old(callbacks) + [task]);
    }

    /** From now on nothing is added or run. */
    method Release()
      modifies this
      ensures isReleased && callbacks == [] && ran == old(ran) && finished == old(finished)
    {
      isReleased, callbacks := true, [];
    }

    method ImmediateRun(needPop: bool)
      requires !finished
      modifies this
      ensures isReleased == old(isReleased)
      ensures isReleased ==> inCalling && ran == old(ran) && callbacks == old(callbacks) && !finished
      ensures !isReleased ==>
                var d := Drain(if needPop && old(callbacks) != [] then old(callbacks)[1..] else old(callbacks));
                && ran == old(ran) + d.ran && callbacks == d.rest && finished == d.finished
                && inCalling == finished
      decreases |callbacks|, if needPop then 0 else 2
    {
      inCalling := true;
      if isReleased {
        return;
      }
      if needPop && callbacks != [] {
        callbacks := callbacks[1..];
      }
      if callbacks == [] {
        inCalling := false;
        return;
      }
      var current := callbacks[0];
      if current.context.None? {
        inCalling := false;
        return;
      }
      RunCallback(current.context.value, current);
    }

    /** Runs the callback of the context, then its release: the task's own, or the next run. */
    method RunCallback(context: Context, current: Task)
      requires !isReleased && !finished && inCalling
      requires callbacks != [] && callbacks[0] == current && current.context == Some(context)
      modifies this
      ensures !isReleased
      ensures var d := Drain(old(callbacks));
              ran == old(ran) + d.ran && callbacks == d.rest && finished == d.finished
      ensures inCalling == finished
      decreases |callbacks|, 1
    {
      slots := slots[context := current];
      ran := ran + [slots[context]];
      if slots[context].ownRelease {
        finished := true;
      } else {
        ImmediateRun(true);
      }
    }
  }
}
