/** The callback manager that runs tasks one at a time on an event loop. One adder at a time, the
    loop thread and a releasing thread interleave: a step is one access to a flag, the mutex, the
    queue or a field of a context, together with the local work behind it. The releasing thread
    does not take the mutex, so it also acts between two accesses under it. */
module CallbackProtocol {
  import opened ByteStrings

  type Context = nat

  /** A queued callback: the context it runs in (none for a null pointer), and whether it comes
      with a release function of its own. */
  datatype Task = Task(id: nat, context: Option<Context>, ownRelease: bool)

  datatype Thread = AdderThread | LoopThread

  /** The next access of an `ImmediateRun` call. It holds the mutex from `TestPop` or `TestEmpty`
      to an unlock. */
  datatype Runner =
    | SetFlag(needPop: bool)
    | CheckReleased(needPop: bool)
    | TakeLock(needPop: bool)
    | TestPop
    | Pop
    | TestEmpty
    | TestReleased
    | ReadFront
    | TestContext(task: Task)
    | ClearFlag
    | Unlock
    | UnlockToRun(c: Context, task: Task)
    | Recheck(c: Context, task: Task)
    | SetCallback(c: Context, task: Task)
    | SetRelease(c: Context, task: Task)
    | QueueWork(c: Context, task: Task)
    | Exit
  {
    predicate Locked() {
      TestPop? || Pop? || TestEmpty? || TestReleased? || ReadFront? || TestContext? || ClearFlag? || Unlock?
      || UnlockToRun?
    }

    /** From the first look at the release flag to the read of the front. */
    predicate InGap() {
      TakeLock? || TestPop? || Pop? || TestEmpty? || TestReleased? || ReadFront?
    }
  }

  /** The next access of an `Add` call. */
  datatype Adder =
    | NoAdder
    | AddCheck(task: Task)
    | AddLock(task: Task)
    | AddEmplace(task: Task)
    | AddTest
    | AddUnlock(runs: bool)
    | AdderRuns(run: Runner)
  {
    predicate Locked() {
      AddEmplace? || AddTest? || AddUnlock? || (AdderRuns? && run.Locked())
    }

    predicate Blocks() {
      AddLock? || (AdderRuns? && run.TakeLock?)
    }
  }

  datatype Looper = NoWork | InCallback(c: Context) | InRelease(c: Context) | LooperRuns(run: Runner)
  {
    predicate Locked() {
      LooperRuns? && run.Locked()
    }

    predicate Blocks() {
      LooperRuns? && run.TakeLock?
    }
  }

  /** What a runner works on: the queue, the flag, the mutex, the two fields of each context and
      the work items queued on the event loop. `popped` is a log; `faulted` records that an empty
      queue was popped or its front read. */
  datatype Shared = Shared(queue: seq<Task>, inCalling: bool, lock: Option<Thread>,
                           callbacks: map<Context, Task>, releases: map<Context, Task>, works: seq<Context>,
                           popped: seq<Task>, faulted: bool)

  /** `clearing` says that a `Release` call has set the flag and not yet swapped the queue. `added`
      and `ran` are logs; `finished` records that a release function of a task was called. */
  datatype State = State(m: Shared, released: bool, clearing: bool, adder: Adder, looper: Looper,
                         added: seq<Task>, ran: seq<Task>, finished: bool)

  const INIT := State(Shared([], false, None, map[], map[], [], [], false), false, false, NoAdder, NoWork, [], [], false)

  datatype Step =
    | CallAdd(t: Task)
    | AdderStep
    | StartWork(k: nat)
    | LooperStep
    | CallRelease
    | SwapQueue
  {
    predicate Internal() {
      AdderStep? || StartWork? || LooperStep?
    }
  }

  // ---------- the steps

  /** One access of `ImmediateRun` by a thread: what it leaves and the next access. */
  function RunnerNext(m: Shared, released: bool, me: Thread, run: Runner): (Shared, Runner) {
    match run
    case SetFlag(needPop) => (m.(inCalling := true), CheckReleased(needPop))
    case CheckReleased(needPop) => (m, if released then Exit else TakeLock(needPop))
    case TakeLock(needPop) => (m.(lock := Some(me)), if needPop then TestPop else TestEmpty)
    case TestPop => (m, if m.queue == [] then TestEmpty else Pop)
    case Pop =>
      if m.queue == [] then (m.(faulted := true), TestEmpty)
      else (m.(queue := m.queue[1..], popped := m.popped + [m.queue[0]]), TestEmpty)
    case TestEmpty => (m, if m.queue == [] then TestReleased else ReadFront)
    case TestReleased => (m, if released then ReadFront else ClearFlag)
    case ReadFront =>
      if m.queue == [] then (m.(faulted := true), Unlock) else (m, TestContext(m.queue[0]))
    case TestContext(task) =>
      (m, if task.context.None? || released then ClearFlag else UnlockToRun(task.context.value, task))
    case ClearFlag => (m.(inCalling := false), Unlock)
    case Unlock => (m.(lock := None), Exit)
    case UnlockToRun(c, task) => (m.(lock := None), Recheck(c, task))
    case Recheck(c, task) => (m, if released then Exit else SetCallback(c, task))
    case SetCallback(c, task) => (m.(callbacks := m.callbacks[c := task]), SetRelease(c, task))
    case SetRelease(c, task) => (m.(releases := m.releases[c := task]), QueueWork(c, task))
    case QueueWork(c, _) => (m.(works := m.works + [c]), Exit)
    case Exit => (m, Exit)
  }

  function AdderNext(s: State): State {
    match s.adder
    case NoAdder => s
    case AddCheck(t) => s.(adder := if s.released then NoAdder else AddLock(t))
    case AddLock(t) => s.(m := s.m.(lock := Some(AdderThread)), adder := AddEmplace(t))
    case AddEmplace(t) => s.(m := s.m.(queue := s.m.queue + [t]), added := s.added + [t], adder := AddTest)
    case AddTest => s.(adder := AddUnlock(!s.m.inCalling))
    case AddUnlock(runs) =>
      s.(m := s.m.(lock := None), adder := if runs then AdderRuns(SetFlag(false)) else NoAdder)
    case AdderRuns(run) =>
      var (m, next) := RunnerNext(s.m, s.released, AdderThread, run);
      s.(m := m, adder := if next.Exit? then NoAdder else AdderRuns(next))
  }

  /** The loop thread runs the callback found in the context, then the release found there: the
      task's own one, or the next `ImmediateRun`. */
  function LooperNext(s: State): State {
    match s.looper
    case NoWork => s
    case InCallback(c) =>
      if c in s.m.callbacks then s.(ran := s.ran + [s.m.callbacks[c]], looper := InRelease(c)) else s
    case InRelease(c) =>
      if c !in s.m.releases then s
      else if s.m.releases[c].ownRelease then s.(finished := true, looper := NoWork)
      else s.(looper := LooperRuns(SetFlag(true)))
    case LooperRuns(run) =>
      var (m, next) := RunnerNext(s.m, s.released, LoopThread, run);
      s.(m := m, looper := if next.Exit? then NoWork else LooperRuns(next))
  }

  predicate Enabled(s: State, step: Step) {
    match step
    case CallAdd(_) => s.adder.NoAdder?
    case AdderStep => !s.adder.NoAdder? && (s.adder.Blocks() ==> s.m.lock.None?)
    case StartWork(k) => s.looper.NoWork? && k < |s.m.works|
    case LooperStep => !s.looper.NoWork? && (s.looper.Blocks() ==> s.m.lock.None?)
    case CallRelease => !s.clearing
    case SwapQueue => s.clearing
  }

  function Next(s: State, step: Step): State
    requires Enabled(s, step)
  {
    match step
    case CallAdd(t) => s.(adder := AddCheck(t))
    case AdderStep => AdderNext(s)
    case StartWork(k) =>
      s.(m := s.m.(works := s.m.works[..k] + s.m.works[k + 1..]), looper := InCallback(s.m.works[k]))
    case LooperStep => LooperNext(s)
    case CallRelease => s.(released := true, clearing := true)
    case SwapQueue => s.(m := s.m.(queue := []), clearing := false)
  }

  function Run(steps: seq<Step>): Option<State> {
    if steps == [] then Some(INIT)
    else match Run(steps[..|steps| - 1])
      case None => None
      case Some(s) => if Enabled(s, steps[|steps| - 1]) then Some(Next(s, steps[|steps| - 1])) else None
  }

  // ---------- what every step keeps: the mutex and the permission to run

  ghost predicate LockInv(s: State) {
    && (s.m.lock == Some(AdderThread) <==> s.adder.Locked())
    && (s.m.lock == Some(LoopThread) <==> s.looper.Locked())
    && (s.adder.AdderRuns? && s.adder.run.TestReleased? ==> s.m.queue == [])
    && (s.looper.LooperRuns? && s.looper.run.TestReleased? ==> s.m.queue == [])
    && (s.clearing ==> s.released)
  }

  /** A thread that has cleared the flag has no permission any more. */
  predicate AdderHas(s: State) {
    (s.adder.AddUnlock? && s.adder.runs) || (s.adder.AdderRuns? && !s.adder.run.Unlock?)
  }

  predicate LooperHas(s: State) {
    !s.looper.NoWork? && !(s.looper.LooperRuns? && s.looper.run.Unlock?)
  }

  /** The adder has the permission, but has not set the flag yet. */
  predicate Starting(s: State) {
    (s.adder.AddUnlock? && s.adder.runs) || (s.adder.AdderRuns? && s.adder.run.SetFlag?)
  }

  /** The one permission to run a task: held by the adder, by the loop thread, or by a work item. */
  function Tokens(s: State): nat {
    (if AdderHas(s) then 1 else 0) + (if LooperHas(s) then 1 else 0) + |s.m.works|
  }

  /** The fields of the context of a runner that it has written. */
  predicate Written(run: Runner, m: Shared) {
    && (run.SetRelease? || run.QueueWork? ==> run.c in m.callbacks)
    && (run.QueueWork? ==> run.c in m.releases)
  }

  ghost predicate TokenInv(s: State) {
    && Tokens(s) <= 1
    && (!s.m.inCalling ==> Tokens(s) == 0 || Starting(s))
    && (s.finished ==> Tokens(s) == 0 && s.m.inCalling)
    && (forall c <- s.m.works :: c in s.m.callbacks && c in s.m.releases)
    && (s.looper.InCallback? || s.looper.InRelease? ==> s.looper.c in s.m.callbacks && s.looper.c in s.m.releases)
    && (s.adder.AdderRuns? ==> !s.adder.run.Exit? && Written(s.adder.run, s.m))
    && (s.looper.LooperRuns? ==> !s.looper.run.Exit? && Written(s.looper.run, s.m))
  }

  /** How the mutex and the queue follow one access of a runner. */
  lemma {:induction false} RunnerLock(m: Shared, released: bool, me: Thread, run: Runner)
    requires !run.Exit?
    ensures var (n, next) := RunnerNext(m, released, me, run);
            && (!run.Locked() ==> n.queue == m.queue)
            && n.lock == (if run.TakeLock? then Some(me) else if run.Unlock? || run.UnlockToRun? then None else m.lock)
            && next.Locked() == (run.TakeLock? || (run.Locked() && !run.Unlock? && !run.UnlockToRun?))
            && (next.TestReleased? ==> n.queue == [])
  {
  }

  /** How the flag and the permission follow it. */
  lemma {:induction false} RunnerToken(m: Shared, released: bool, me: Thread, run: Runner)
    requires !run.Exit? && Written(run, m)
    ensures var (n, next) := RunnerNext(m, released, me, run);
            && !next.SetFlag? && (run.QueueWork? || run.Unlock? ==> next.Exit?)
            && n.inCalling == (run.SetFlag? || (m.inCalling && !run.ClearFlag?)) && (run.ClearFlag? ==> next.Unlock?)
            && n.works == (if run.QueueWork? then m.works + [run.c] else m.works)
            && (run.QueueWork? ==> run.c in n.callbacks && run.c in n.releases)
            && m.callbacks.Keys <= n.callbacks.Keys && m.releases.Keys <= n.releases.Keys
            && Written(next, n)
  {
  }

  lemma {:induction false} AdderLock(s: State)
    requires LockInv(s) && Enabled(s, AdderStep)
    requires s.adder.AdderRuns? ==> !s.adder.run.Exit?
    ensures LockInv(AdderNext(s))
  {
    hide RunnerNext;
    if s.adder.AdderRuns? {
      RunnerLock(s.m, s.released, AdderThread, s.adder.run);
    }
  }

  lemma {:induction false} LooperLock(s: State)
    requires LockInv(s) && Enabled(s, LooperStep)
    requires s.looper.LooperRuns? ==> !s.looper.run.Exit?
    ensures LockInv(LooperNext(s))
  {
    hide RunnerNext;
    if s.looper.LooperRuns? {
      RunnerLock(s.m, s.released, LoopThread, s.looper.run);
    }
  }

  lemma {:induction false} LockStep(s: State, step: Step)
    requires LockInv(s) && TokenInv(s) && Enabled(s, step)
    ensures LockInv(Next(s, step))
  {
    hide AdderNext, LooperNext, Tokens, Written;
    match step
    case AdderStep => AdderLock(s);
    case LooperStep => LooperLock(s);
    case _ =>
  }

  lemma {:induction false} AdderTokens(s: State)
    requires TokenInv(s)
    ensures TokenInv(AdderNext(s))
  {
    hide AdderNext;
    if s.adder.AdderRuns? {
      AdderRunsTokens(s);
    } else {
      AdderAddsTokens(s);
    }
  }

  lemma {:induction false} AdderAddsTokens(s: State)
    requires TokenInv(s) && !s.adder.AdderRuns?
    ensures TokenInv(AdderNext(s))
  {
    hide Written;
    var t := AdderNext(s);
    assert t.m == s.m.(lock := t.m.lock, queue := t.m.queue) && t.looper == s.looper && t.finished == s.finished;
    NothingWritten(t.m);
    if s.looper.LooperRuns? {
      WrittenStays(s.looper.run, s.m, t.m);
    }
    assert t.adder.AddUnlock? || t.adder.AdderRuns? ==> s.adder.AddTest? || s.adder.AddUnlock?;
  }

  lemma {:induction false} AdderRunsTokens(s: State)
    requires TokenInv(s) && s.adder.AdderRuns?
    ensures TokenInv(AdderNext(s))
  {
    hide RunnerNext, Written;
    RunnerToken(s.m, s.released, AdderThread, s.adder.run);
    if s.looper.LooperRuns? {
      WrittenStays(s.looper.run, s.m, AdderNext(s).m);
    }
  }

  lemma {:induction false} WrittenStays(run: Runner, m: Shared, n: Shared)
    requires Written(run, m) && m.callbacks.Keys <= n.callbacks.Keys && m.releases.Keys <= n.releases.Keys
    ensures Written(run, n)
  {
  }

  lemma {:induction false} NothingWritten(m: Shared)
    ensures Written(SetFlag(false), m) && Written(SetFlag(true), m)
  {
  }

  lemma {:induction false} LooperTokens(s: State)
    requires TokenInv(s)
    ensures TokenInv(LooperNext(s))
  {
    hide RunnerNext, Written;
    NothingWritten(LooperNext(s).m);
    if s.looper.LooperRuns? {
      RunnerToken(s.m, s.released, LoopThread, s.looper.run);
    }
    if s.adder.AdderRuns? {
      WrittenStays(s.adder.run, s.m, LooperNext(s).m);
    }
  }

  lemma {:induction false} TokenStep(s: State, step: Step)
    requires TokenInv(s) && Enabled(s, step)
    ensures TokenInv(Next(s, step))
  {
    hide AdderNext, LooperNext;
    match step
    case AdderStep => AdderTokens(s);
    case LooperStep => LooperTokens(s);
    case _ =>
  }

  // ---------- what every step keeps until a release: the queue and the logs

  /** The front is queued, and its callback has or has not been run. */
  ghost predicate FrontReady(m: Shared, ran: seq<Task>, done: bool) {
    m.queue != [] && ran == m.popped + (if done then [m.queue[0]] else [])
  }

  /** The front is in flight in its context. */
  ghost predicate InFlight(m: Shared, ran: seq<Task>, c: Context, done: bool) {
    && FrontReady(m, ran, done) && m.queue[0].context == Some(c)
    && c in m.callbacks && m.callbacks[c] == m.queue[0] && c in m.releases && m.releases[c] == m.queue[0]
  }

  /** Nothing can be run: the queue is empty or its front has no context. */
  predicate Stuck(m: Shared) {
    m.queue == [] || m.queue[0].context.None?
  }

  /** A runner that runs the front `task` in `c` next. */
  ghost predicate Runs(m: Shared, ran: seq<Task>, c: Context, task: Task) {
    FrontReady(m, ran, false) && m.queue[0] == task && task.context == Some(c)
  }

  ghost predicate RunnerInv(m: Shared, ran: seq<Task>, run: Runner, done: bool) {
    match run
    case SetFlag(needPop) => needPop == done && FrontReady(m, ran, done)
    case CheckReleased(needPop) => needPop == done && FrontReady(m, ran, done)
    case TakeLock(needPop) => needPop == done && FrontReady(m, ran, done)
    case TestPop => done && FrontReady(m, ran, true)
    case Pop => done && FrontReady(m, ran, true)
    case TestEmpty => ran == m.popped
    case TestReleased => ran == m.popped && m.queue == []
    case ReadFront => FrontReady(m, ran, false)
    case TestContext(task) => FrontReady(m, ran, false) && m.queue[0] == task
    case ClearFlag => ran == m.popped && Stuck(m)
    case Unlock => true
    case UnlockToRun(c, task) => Runs(m, ran, c, task)
    case Recheck(c, task) => Runs(m, ran, c, task)
    case SetCallback(c, task) => Runs(m, ran, c, task)
    case SetRelease(c, task) => Runs(m, ran, c, task) && c in m.callbacks && m.callbacks[c] == task
    case QueueWork(c, task) => InFlight(m, ran, c, false) && m.queue[0] == task
    case Exit => false
  }

  ghost predicate AdderInv(s: State) {
    match s.adder
    case AddTest => s.m.queue != []
    case AddUnlock(runs) => s.m.queue != [] && (runs ==> FrontReady(s.m, s.ran, false))
    case AdderRuns(run) => RunnerInv(s.m, s.ran, run, false)
    case _ => true
  }

  ghost predicate LooperInv(s: State) {
    match s.looper
    case NoWork => true
    case InCallback(c) => InFlight(s.m, s.ran, c, false)
    case InRelease(c) => InFlight(s.m, s.ran, c, true)
    case LooperRuns(run) => RunnerInv(s.m, s.ran, run, true)
  }

  ghost predicate QueueInv(s: State) {
    && s.added == s.m.popped + s.m.queue && !s.m.faulted
    && AdderInv(s) && LooperInv(s)
    && (s.m.works != [] ==> InFlight(s.m, s.ran, s.m.works[0], false))
    && (s.finished ==> FrontReady(s.m, s.ran, true))
    && (Tokens(s) == 0 && !s.finished ==>
          !s.m.inCalling && s.ran == s.m.popped && (Stuck(s.m) || s.adder.AddTest?))
  }

  ghost predicate Inv(s: State) {
    LockInv(s) && TokenInv(s) && (!s.released ==> QueueInv(s))
  }

  /** Until a release, a runner ends by posting the front or by leaving nothing that can be run. */
  lemma {:induction false} RunnerKeeps(m: Shared, me: Thread, ran: seq<Task>, run: Runner, done: bool)
    requires RunnerInv(m, ran, run, done) && !m.faulted
    ensures var (n, next) := RunnerNext(m, false, me, run);
            && n.popped + n.queue == m.popped + m.queue && !n.faulted
            && (!next.Exit? ==> RunnerInv(n, ran, next, done))
            && (next.Exit? <==> run.QueueWork? || run.Unlock?)
            && (run.QueueWork? ==> InFlight(n, ran, run.c, false))
            && (next.Unlock? <==> run.ClearFlag?)
            && (run.ClearFlag? ==> !n.inCalling && ran == n.popped && Stuck(n))
            && (run.Unlock? ==> n == m.(lock := None))
            && (!run.Pop? ==> n.queue == m.queue)
  {
  }

  lemma {:induction false} AppendKeeps(m: Shared, ran: seq<Task>, run: Runner, done: bool, t: Task)
    requires RunnerInv(m, ran, run, done) && !run.Locked()
    ensures RunnerInv(m.(queue := m.queue + [t]), ran, run, done)
  {
  }

  lemma {:induction false} LockIsFree(m: Shared, ran: seq<Task>, run: Runner, done: bool, lock: Option<Thread>)
    requires RunnerInv(m, ran, run, done)
    ensures RunnerInv(m.(lock := lock), ran, run, done)
  {
  }

  lemma {:induction false} AdderQueue(s: State)
    requires LockInv(s) && TokenInv(s) && QueueInv(s) && !s.released && Enabled(s, AdderStep)
    ensures QueueInv(AdderNext(s))
  {
    hide AdderNext;
    if s.adder.AdderRuns? {
      AdderRunsQueue(s);
    } else {
      AdderAddsQueue(s);
    }
  }

  lemma {:induction false} AdderRunsQueue(s: State)
    requires LockInv(s) && TokenInv(s) && QueueInv(s) && !s.released && Enabled(s, AdderStep) && s.adder.AdderRuns?
    ensures QueueInv(AdderNext(s))
  {
    hide RunnerNext, RunnerInv, Written;
    var run, t := s.adder.run, AdderNext(s);
    RunnerToken(s.m, false, AdderThread, run);
    RunnerKeeps(s.m, AdderThread, s.ran, run, false);
    UnlockInv(t.m, s.ran, true);
    if s.looper.LooperRuns? && run.Unlock? {
      LockIsFree(s.m, s.ran, s.looper.run, true, None);
    }
  }

  lemma {:induction false} AdderAddsQueue(s: State)
    requires LockInv(s) && TokenInv(s) && QueueInv(s) && !s.released && Enabled(s, AdderStep) && !s.adder.AdderRuns?
    ensures QueueInv(AdderNext(s))
  {
    hide RunnerNext, RunnerInv, Written;
    var t := AdderNext(s);
    assert t.m.popped == s.m.popped && t.looper == s.looper && t.finished == s.finished;
    if s.looper.LooperRuns? {
      if s.adder.AddEmplace? {
        AppendKeeps(s.m, s.ran, s.looper.run, true, s.adder.task);
      } else {
        LockIsFree(s.m, s.ran, s.looper.run, true, t.m.lock);
      }
    }
    if t.adder.AdderRuns? {
      StartInv(t.m, s.ran, false);
    }
  }

  lemma {:induction false} UnlockInv(m: Shared, ran: seq<Task>, done: bool)
    ensures RunnerInv(m, ran, Unlock, done)
  {
  }

  lemma {:induction false} StartInv(m: Shared, ran: seq<Task>, done: bool)
    requires FrontReady(m, ran, done)
    ensures RunnerInv(m, ran, SetFlag(done), done)
  {
  }

  lemma {:induction false} LooperQueue(s: State)
    requires LockInv(s) && TokenInv(s) && QueueInv(s) && !s.released && Enabled(s, LooperStep)
    ensures QueueInv(LooperNext(s))
  {
    hide LooperNext;
    if s.looper.LooperRuns? {
      LooperRunsQueue(s);
    } else {
      LooperCallsQueue(s);
    }
  }

  lemma {:induction false} LooperRunsQueue(s: State)
    requires LockInv(s) && TokenInv(s) && QueueInv(s) && !s.released && Enabled(s, LooperStep) && s.looper.LooperRuns?
    ensures QueueInv(LooperNext(s))
  {
    hide RunnerNext, RunnerInv, Written;
    var run, t := s.looper.run, LooperNext(s);
    RunnerToken(s.m, false, LoopThread, run);
    RunnerKeeps(s.m, LoopThread, s.ran, run, true);
    UnlockInv(t.m, s.ran, false);
    if s.adder.AdderRuns? && run.Unlock? {
      LockIsFree(s.m, s.ran, s.adder.run, false, None);
    }
  }

  lemma {:induction false} LooperCallsQueue(s: State)
    requires LockInv(s) && TokenInv(s) && QueueInv(s) && !s.released && Enabled(s, LooperStep) && !s.looper.LooperRuns?
    ensures QueueInv(LooperNext(s))
  {
    hide RunnerNext, RunnerInv, Written;
    var t := LooperNext(s);
    UnlockInv(t.m, t.ran, false);
    if t.looper.LooperRuns? {
      StartInv(t.m, t.ran, true);
    }
  }

  lemma {:induction false} QueueStep(s: State, step: Step)
    requires LockInv(s) && TokenInv(s) && QueueInv(s) && !s.released && Enabled(s, step) && !Next(s, step).released
    ensures QueueInv(Next(s, step))
  {
    hide AdderNext, LooperNext, RunnerInv, Written;
    match step
    case AdderStep => AdderQueue(s);
    case LooperStep => LooperQueue(s);
    case StartWork(k) => StartQueue(s, k);
    case _ =>
  }

  lemma {:induction false} StartQueue(s: State, k: nat)
    requires TokenInv(s) && QueueInv(s) && Enabled(s, StartWork(k))
    ensures QueueInv(Next(s, StartWork(k)))
  {
    hide RunnerInv, Written;
    var t := Next(s, StartWork(k));
    assert t.m == s.m.(works := []);
    if s.adder.AdderRuns? {
      assert s.adder.run.Unlock?;
      UnlockInv(t.m, s.ran, false);
    }
  }

  lemma {:induction false} ReleasedForGood(s: State, step: Step)
    requires Enabled(s, step)
    ensures s.released ==> Next(s, step).released
  {
    hide RunnerNext;
  }

  /** In every interleaving of the adder, the loop thread and a releasing thread. */
  lemma {:induction false} RunInv(steps: seq<Step>)
    requires Run(steps).Some?
    ensures Inv(Run(steps).value)
  {
    hide LockInv, TokenInv, QueueInv, Next, Enabled;
    if steps == [] {
      InitInv();
    } else {
      RunInv(steps[..|steps| - 1]);
      var s, step := Run(steps[..|steps| - 1]).value, steps[|steps| - 1];
      LockStep(s, step);
      TokenStep(s, step);
      ReleasedForGood(s, step);
      if !Next(s, step).released {
        QueueStep(s, step);
      }
    }
  }

  lemma {:induction false} InitInv()
    ensures Inv(INIT)
  {
  }

  // ---------- the guarantees

  /** No adder or loop thread is inside the manager and no work item is queued. */
  predicate Quiet(s: State) {
    s.adder.NoAdder? && s.looper.NoWork? && s.m.works == []
  }

  /** Every added task has run, or the next one has no context. */
  predicate AllRun(s: State) {
    s.ran == s.added || (s.m.queue != [] && s.m.queue[0].context.None? && s.added == s.ran + s.m.queue)
  }

  /** The context `c` holds the front of the queue. */
  predicate HoldsFront(m: Shared, c: Context) {
    && m.queue != [] && c in m.callbacks && m.callbacks[c] == m.queue[0]
    && c in m.releases && m.releases[c] == m.queue[0]
  }

  /** In every interleaving at most one task is in flight. Before a release: the context of a task
      in flight holds the front of the queue; the tasks that ran are the first ones added, in
      order, each once; and when everything is quiet without a called release function, all added
      tasks have run, or the next one has no context. */
  lemma {:induction false} Serialised(steps: seq<Step>)
    requires Run(steps).Some?
    ensures var s := Run(steps).value;
            && |s.m.works| + (if s.looper.InCallback? || s.looper.InRelease? then 1 else 0) <= 1
            && (!s.released ==>
                && s.ran <= s.added && !s.m.faulted
                && (forall c <- s.m.works :: HoldsFront(s.m, c))
                && (s.looper.InCallback? || s.looper.InRelease? ==> HoldsFront(s.m, s.looper.c))
                && (Quiet(s) && !s.finished ==> AllRun(s)))
  {
    hide LockInv, TokenInv, QueueInv, Run, HoldsFront, AllRun;
    RunInv(steps);
    InFlightOnce(Run(steps).value);
    if !Run(steps).value.released {
      RunInOrder(Run(steps).value);
    }
  }

  lemma {:induction false} InFlightOnce(s: State)
    requires TokenInv(s)
    ensures |s.m.works| + (if s.looper.InCallback? || s.looper.InRelease? then 1 else 0) <= 1
  {
  }

  lemma {:induction false} RunInOrder(s: State)
    requires TokenInv(s) && QueueInv(s)
    ensures s.ran <= s.added && !s.m.faulted
    ensures forall c <- s.m.works :: HoldsFront(s.m, c)
    ensures s.looper.InCallback? || s.looper.InRelease? ==> HoldsFront(s.m, s.looper.c)
    ensures Quiet(s) && !s.finished ==> AllRun(s)
  {
    RanIsPrefix(s);
    assert forall c <- s.m.works :: c == s.m.works[0];
  }

  /** Some thread, work item or idleness accounts for the difference of the two logs. */
  lemma {:induction false} RanIsPrefix(s: State)
    requires TokenInv(s) && QueueInv(s)
    ensures s.ran <= s.added
  {
    if Tokens(s) == 0 && !s.finished {
      assert s.ran == s.m.popped;
    } else {
      assert s.ran == s.m.popped || (s.m.queue != [] && s.ran == s.m.popped + [s.m.queue[0]]);
    }
  }

  /** Once a task's own release function was called, no callback runs any more, whatever is added
      or released. */
  lemma {:induction false} NothingAfterRelease(s: State, step: Step)
    requires TokenInv(s) && s.finished && Enabled(s, step)
    ensures Next(s, step).finished && Next(s, step).ran == s.ran && Next(s, step).m.works == []
  {
    assert !AdderHas(s) && !LooperHas(s) && s.m.works == [];
  }

  lemma {:induction false} NothingAfterReleaseRun(steps: seq<Step>, n: nat)
    requires n <= |steps| && Run(steps).Some? && Run(steps[..n]).Some? && Run(steps[..n]).value.finished
    ensures Run(steps).value.finished && Run(steps).value.ran == Run(steps[..n]).value.ran
    decreases |steps|
  {
    hide Next, Enabled, LockInv, TokenInv, QueueInv;
    if n < |steps| {
      var init := steps[..|steps| - 1];
      assert init[..n] == steps[..n];
      NothingAfterReleaseRun(init, n);
      RunInv(init);
      NothingAfterRelease(Run(init).value, steps[|steps| - 1]);
    } else {
      assert steps[..n] == steps;
    }
  }

  // ---------- own release functions

  /** A runner that has looked at the release flag for the last time. */
  predicate PastRecheck(run: Runner) {
    run.SetCallback? || run.SetRelease? || run.QueueWork?
  }

  predicate SameTask(callbacks: map<Context, Task>, releases: map<Context, Task>, c: Context) {
    c in callbacks && c in releases && callbacks[c] == releases[c]
  }

  predicate OneTask(callbacks: map<Context, Task>, releases: map<Context, Task>, run: Runner) {
    && (run.SetRelease? ==> run.c in callbacks && callbacks[run.c] == run.task)
    && (run.QueueWork? ==> SameTask(callbacks, releases, run.c))
  }

  /** The two fields of a context belong to one task when it is posted. */
  ghost predicate SlotInv(s: State) {
    && (forall c <- s.m.works :: SameTask(s.m.callbacks, s.m.releases, c))
    && (s.looper.InCallback? ==> SameTask(s.m.callbacks, s.m.releases, s.looper.c))
    && (s.looper.InRelease? ==>
          s.ran != [] && s.looper.c in s.m.releases && s.m.releases[s.looper.c] == s.ran[|s.ran| - 1])
    && (s.adder.AdderRuns? ==> OneTask(s.m.callbacks, s.m.releases, s.adder.run))
    && (s.looper.LooperRuns? ==> OneTask(s.m.callbacks, s.m.releases, s.looper.run))
  }

  ghost predicate LastInv(s: State) {
    var n := |s.ran|;
    && (forall i :: 0 <= i < n - 1 ==> !s.ran[i].ownRelease)
    && (n > 0 && s.ran[n - 1].ownRelease ==> s.finished || s.looper.InRelease?)
    && (s.finished ==> n > 0 && s.ran[n - 1].ownRelease)
  }

  lemma {:induction false} RunnerOneTask(m: Shared, released: bool, me: Thread, run: Runner)
    requires OneTask(m.callbacks, m.releases, run)
    ensures var (n, next) := RunnerNext(m, released, me, run);
            && OneTask(n.callbacks, n.releases, next)
            && (!PastRecheck(run) ==> n.works == m.works && n.callbacks == m.callbacks && n.releases == m.releases)
            && (PastRecheck(run) ==> n.works == if run.QueueWork? then m.works + [run.c] else m.works)
            && (run.QueueWork? ==> SameTask(n.callbacks, n.releases, run.c))
  {
  }

  lemma {:induction false} AdderSlots(s: State)
    requires TokenInv(s) && SlotInv(s)
    ensures SlotInv(AdderNext(s))
  {
    hide AdderNext, TokenInv, SlotInv;
    if s.adder.AdderRuns? {
      AdderRunsSlots(s);
    } else {
      AdderAddsSlots(s);
    }
  }

  lemma {:induction false} AdderRunsSlots(s: State)
    requires TokenInv(s) && SlotInv(s) && s.adder.AdderRuns?
    ensures SlotInv(AdderNext(s))
  {
    hide RunnerNext, SameTask, Written;
    RunnerOneTask(s.m, s.released, AdderThread, s.adder.run);
    assert PastRecheck(s.adder.run) ==> AdderHas(s);
  }

  lemma {:induction false} AdderAddsSlots(s: State)
    requires SlotInv(s) && !s.adder.AdderRuns?
    ensures SlotInv(AdderNext(s))
  {
    hide RunnerNext, SameTask;
    var t := AdderNext(s);
    assert t.m == s.m.(lock := t.m.lock, queue := t.m.queue) && t.looper == s.looper && t.ran == s.ran;
    assert t.adder.AdderRuns? ==> t.adder.run == SetFlag(false);
  }

  lemma {:induction false} LooperSlots(s: State)
    requires TokenInv(s) && SlotInv(s)
    ensures SlotInv(LooperNext(s))
  {
    hide RunnerNext, Written;
    if s.looper.LooperRuns? {
      RunnerOneTask(s.m, s.released, LoopThread, s.looper.run);
      assert PastRecheck(s.looper.run) ==> LooperHas(s);
    }
  }

  lemma {:induction false} SlotStep(s: State, step: Step)
    requires TokenInv(s) && SlotInv(s) && Enabled(s, step)
    ensures SlotInv(Next(s, step))
  {
    hide AdderNext, LooperNext, Written, SameTask;
    match step
    case AdderStep => AdderSlots(s);
    case LooperStep => LooperSlots(s);
    case StartWork(k) => assert |s.m.works| == 1 && s.m.works[k] in s.m.works;
    case _ =>
  }

  lemma {:induction false} LastStep(s: State, step: Step)
    requires TokenInv(s) && SlotInv(s) && LastInv(s) && Enabled(s, step)
    ensures LastInv(Next(s, step))
  {
    hide RunnerNext, Written;
    assert Next(s, step).ran != s.ran ==> s.looper.InCallback? && LooperHas(s);
  }

  lemma {:induction false} OwnReleaseRun(steps: seq<Step>)
    requires Run(steps).Some?
    ensures SlotInv(Run(steps).value) && LastInv(Run(steps).value)
  {
    hide SlotInv, LastInv, LockInv, TokenInv, QueueInv, Next, Enabled;
    if steps == [] {
      OwnReleaseInit();
    } else {
      var init := steps[..|steps| - 1];
      OwnReleaseRun(init);
      RunInv(init);
      SlotStep(Run(init).value, steps[|steps| - 1]);
      LastStep(Run(init).value, steps[|steps| - 1]);
    }
  }

  lemma {:induction false} OwnReleaseInit()
    ensures SlotInv(INIT) && LastInv(INIT)
  {
  }

  /** In every interleaving, released or not: a task with a release function of its own is the last
      one that runs, and when everything is quiet that function has been called exactly if there
      was such a task. */
  lemma {:induction false} OwnReleaseIsLast(steps: seq<Step>)
    requires Run(steps).Some?
    ensures var s := Run(steps).value;
            && (forall i :: 0 <= i < |s.ran| - 1 ==> !s.ran[i].ownRelease)
            && (Quiet(s) ==> (s.finished <==> s.ran != [] && s.ran[|s.ran| - 1].ownRelease))
  {
    OwnReleaseRun(steps);
  }

  // ---------- progress

  function RunnerRank(run: Runner, empty: bool): nat {
    match run
    case SetFlag(needPop) => if needPop then 9 else 23
    case CheckReleased(needPop) => if needPop then 8 else 22
    case TakeLock(needPop) => if needPop then 7 else 21
    case TestPop => 6
    case Pop => 5
    case TestEmpty => if empty then 4 else 20
    case TestReleased => 3
    case ReadFront => if empty then 2 else 19
    case TestContext(_) => 18
    case ClearFlag => 2
    case Unlock => 1
    case UnlockToRun(_, _) => 17
    case Recheck(_, _) => 16
    case SetCallback(_, _) => 15
    case SetRelease(_, _) => 14
    case QueueWork(_, _) => 13
    case Exit => 0
  }

  function AdderRank(adder: Adder, empty: bool): nat {
    match adder
    case NoAdder => 0
    case AddCheck(_) => 44
    case AddLock(_) => 43
    case AddEmplace(_) => 42
    case AddTest => 25
    case AddUnlock(runs) => if runs then 24 else 1
    case AdderRuns(run) => RunnerRank(run, empty)
  }

  function LooperRank(looper: Looper, empty: bool): nat {
    match looper
    case NoWork => 0
    case InCallback(_) => 11
    case InRelease(_) => 10
    case LooperRuns(run) => RunnerRank(run, empty)
  }

  function Measure(s: State): nat {
    16 * |s.m.queue| + 12 * |s.m.works|
    + AdderRank(s.adder, s.m.queue == []) + LooperRank(s.looper, s.m.queue == [])
  }

  lemma {:induction false} RunnerProgress(m: Shared, released: bool, me: Thread, run: Runner)
    requires !run.Exit? && (run.TestReleased? ==> m.queue == [])
    ensures var (n, next) := RunnerNext(m, released, me, run);
            16 * |n.queue| + 12 * |n.works| + RunnerRank(next, n.queue == [])
            < 16 * |m.queue| + 12 * |m.works| + RunnerRank(run, m.queue == [])
  {
  }

  /** Only the holder of the mutex depends on whether the queue is empty. */
  lemma {:induction false} RankStays(run: Runner, empty: bool, other: bool)
    requires !run.Locked()
    ensures RunnerRank(run, empty) == RunnerRank(run, other)
  {
  }

  lemma {:induction false} ExitRank(empty: bool)
    ensures RunnerRank(Exit, empty) == 0
    ensures RunnerRank(SetFlag(false), empty) == 23 && RunnerRank(SetFlag(true), empty) == 9
  {
  }

  lemma {:induction false} AdderProgress(s: State)
    requires LockInv(s) && Enabled(s, AdderStep) && (s.adder.AdderRuns? ==> !s.adder.run.Exit?)
    ensures Measure(AdderNext(s)) < Measure(s)
  {
    hide RunnerNext, RunnerRank;
    var t := AdderNext(s);
    if s.adder.AdderRuns? {
      RunnerLock(s.m, s.released, AdderThread, s.adder.run);
      RunnerProgress(s.m, s.released, AdderThread, s.adder.run);
    }
    LooperRankStays(s.looper, s.m, t.m);
    hide LooperRank, LockInv;
    ExitRank(t.m.queue == []);
  }

  lemma {:induction false} LooperRankStays(looper: Looper, m: Shared, n: Shared)
    requires looper.Locked() ==> n.queue == m.queue
    ensures LooperRank(looper, m.queue == []) == LooperRank(looper, n.queue == [])
  {
    hide RunnerRank;
    if looper.LooperRuns? && !looper.run.Locked() {
      RankStays(looper.run, m.queue == [], n.queue == []);
    }
  }

  lemma {:induction false} LooperProgress(s: State)
    requires LockInv(s) && Enabled(s, LooperStep) && (s.looper.LooperRuns? ==> !s.looper.run.Exit?)
    requires s.looper.InCallback? || s.looper.InRelease? ==> s.looper.c in s.m.callbacks && s.looper.c in s.m.releases
    ensures Measure(LooperNext(s)) < Measure(s)
  {
    hide RunnerNext, RunnerRank;
    var t := LooperNext(s);
    ExitRank(t.m.queue == []);
    if s.looper.LooperRuns? {
      RunnerLock(s.m, s.released, LoopThread, s.looper.run);
      RunnerProgress(s.m, s.released, LoopThread, s.looper.run);
    }
    if s.adder.AdderRuns? && !s.adder.run.Locked() {
      RankStays(s.adder.run, s.m.queue == [], t.m.queue == []);
    }
  }

  /** Without new calls, only finitely many steps are possible: each decreases a natural number. */
  lemma {:induction false} Progress(s: State, step: Step)
    requires LockInv(s) && TokenInv(s) && Enabled(s, step) && step.Internal()
    ensures Measure(Next(s, step)) < Measure(s)
  {
    hide AdderNext, LooperNext, Tokens, Written, RunnerRank;
    match step
    case AdderStep => AdderProgress(s);
    case LooperStep => LooperProgress(s);
    case StartWork(k) =>
  }

  /** No deadlock: as long as the manager is not quiet an internal step is possible. */
  lemma {:induction false} NotQuietCanStep(s: State)
    requires LockInv(s) && !Quiet(s)
    ensures Enabled(s, AdderStep) || Enabled(s, LooperStep) || Enabled(s, StartWork(0))
  {
    if s.m.lock.Some? {
      assert s.m.lock.value == AdderThread || s.m.lock.value == LoopThread;
    }
  }

  ghost predicate AllInternal(steps: seq<Step>) {
    forall step <- steps :: step.Internal()
  }

  /** Internal steps release nothing and add nothing new: they only work off the measure. */
  lemma {:induction false} InternalRun(steps: seq<Step>, more: seq<Step>)
    requires Run(steps).Some? && Run(steps + more).Some? && AllInternal(more)
    ensures |more| + Measure(Run(steps + more).value) <= Measure(Run(steps).value)
    ensures Run(steps + more).value.released == Run(steps).value.released
    decreases |more|
  {
    hide Measure, LockInv, TokenInv, QueueInv, Next, Enabled;
    if more == [] {
      assert steps + more == steps;
    } else {
      var init, step := more[..|more| - 1], more[|more| - 1];
      assert (steps + more)[..|steps + more| - 1] == steps + init && (steps + more)[|steps + more| - 1] == step;
      assert step in more;
      InternalRun(steps, init);
      RunInv(steps + init);
      Progress(Run(steps + init).value, step);
      InternalKeeps(Run(steps + init).value, step);
    }
  }

  lemma {:induction false} InternalKeeps(s: State, step: Step)
    requires Enabled(s, step) && step.Internal()
    ensures Next(s, step).released == s.released && Next(s, step).clearing == s.clearing
  {
    hide RunnerNext;
  }

  /** However the threads are scheduled when no new calls come: after at most `Measure` steps no
      internal step is left, the manager is then quiet, and without a release everything that can
      be run has been run. So no wakeup is lost. */
  lemma {:induction false} SettlesWithAllRun(steps: seq<Step>, more: seq<Step>)
    requires Run(steps).Some? && Run(steps + more).Some? && AllInternal(more)
    ensures |more| <= Measure(Run(steps).value)
    ensures var t := Run(steps + more).value;
            (forall step: Step :: step.Internal() ==> !Enabled(t, step)) ==>
              Quiet(t) && (!t.released && !t.finished ==> AllRun(t))
  {
    hide Measure, LockInv, TokenInv, QueueInv, Next, Enabled, Quiet, AllRun, Run;
    InternalRun(steps, more);
    var t := Run(steps + more).value;
    RunInv(steps + more);
    Serialised(steps + more);
    if !Quiet(t) {
      NotQuietCanStep(t);
      assert AdderStep.Internal() && LooperStep.Internal() && StartWork(0).Internal();
    }
  }

  lemma {:induction false} Extend(steps: seq<Step>, s: State, step: Step)
    requires Run(steps) == Some(s) && Enabled(s, step)
    ensures Run(steps + [step]) == Some(Next(s, step))
  {
    assert (steps + [step])[..|steps|] == steps;
  }

  // ---------- releasing

  predicate Gap(s: State, me: Thread) {
    match me
    case AdderThread => s.adder.AdderRuns? && s.adder.run.InGap()
    case LoopThread => s.looper.LooperRuns? && s.looper.run.InGap()
  }

  /** Some runner is between its first look at the release flag and the read of the front. */
  predicate InGap(s: State) {
    Gap(s, AdderThread) || Gap(s, LoopThread)
  }

  /** An `Add` call is between its look at the release flag and the push. */
  predicate Adding(s: State) {
    s.adder.AddLock? || s.adder.AddEmplace?
  }

  /** The queue is swapped without the mutex while another thread is about to use it. */
  predicate Racing(s: State) {
    s.clearing && (s.adder.AddEmplace? || (s.adder.AdderRuns? && UsesQueue(s.adder.run))
                   || (s.looper.LooperRuns? && UsesQueue(s.looper.run)))
  }

  predicate UsesQueue(run: Runner) {
    run.TestPop? || run.Pop? || run.TestEmpty? || run.ReadFront?
  }

  /** With a release at this point of a run, whatever happens next, no empty queue is popped or its
      front read. */
  ghost predicate NeverFaults(steps: seq<Step>) {
    forall more: seq<Step> :: Run(steps + [CallRelease] + more).Some? ==>
      !Run(steps + [CallRelease] + more).value.m.faulted
  }

  /** Nor is the queue ever swapped while another thread uses it. */
  ghost predicate NeverRaces(steps: seq<Step>) {
    forall more: seq<Step> :: Run(steps + [CallRelease] + more).Some? ==>
      !Run(steps + [CallRelease] + more).value.m.faulted && !Racing(Run(steps + [CallRelease] + more).value)
  }

  predicate Released(s: State) {
    s.released && !s.m.faulted && !InGap(s)
  }

  lemma {:induction false} RunnerGap(m: Shared, me: Thread, run: Runner)
    requires !run.InGap()
    ensures var (n, next) := RunnerNext(m, true, me, run);
            !next.InGap() && n.faulted == m.faulted
  {
  }

  lemma {:induction false} ReleasedStep(s: State, step: Step)
    requires Released(s) && Enabled(s, step)
    ensures Released(Next(s, step))
    ensures !Adding(s) ==> !Adding(Next(s, step))
  {
    hide RunnerNext;
    if s.adder.AdderRuns? {
      RunnerGap(s.m, AdderThread, s.adder.run);
    }
    if s.looper.LooperRuns? {
      RunnerGap(s.m, LoopThread, s.looper.run);
    }
  }

  lemma {:induction false} StaysReleased(steps: seq<Step>, more: seq<Step>)
    requires Run(steps).Some? && Run(steps + more).Some? && Released(Run(steps).value)
    ensures Released(Run(steps + more).value)
    ensures !Adding(Run(steps).value) ==> !Adding(Run(steps + more).value)
    decreases |more|
  {
    hide Released, Adding, Next, Enabled;
    if more == [] {
      assert steps + more == steps;
    } else {
      var init, step := more[..|more| - 1], more[|more| - 1];
      assert (steps + more)[..|steps + more| - 1] == steps + init && (steps + more)[|steps + more| - 1] == step;
      StaysReleased(steps, init);
      ReleasedStep(Run(steps + init).value, step);
    }
  }

  // ---------- the unsafe releases

  function StepOf(me: Thread): Step {
    match me
    case AdderThread => AdderStep
    case LoopThread => LooperStep
  }

  function Other(me: Thread): Thread {
    match me
    case AdderThread => LoopThread
    case LoopThread => AdderThread
  }

  predicate Waits(s: State, me: Thread) {
    match me
    case AdderThread => s.adder.Blocks()
    case LoopThread => s.looper.Blocks()
  }

  predicate SamePlace(s: State, t: State, me: Thread) {
    match me
    case AdderThread => t.adder == s.adder
    case LoopThread => t.looper == s.looper
  }

  lemma {:induction false} HolderSteps(s: State, me: Thread)
    requires LockInv(s) && Waits(s, me) && s.m.lock.Some?
    ensures var step := StepOf(Other(me));
            Enabled(s, step) && step.Internal() && SamePlace(s, Next(s, step), me)
  {
    hide RunnerNext;
    assert s.m.lock.value == AdderThread || s.m.lock.value == LoopThread;
  }

  /** A thread that waits for the mutex gets it when the other one goes on. */
  lemma {:induction false} MutexFrees(steps: seq<Step>, me: Thread) returns (more: seq<Step>)
    requires Run(steps).Some? && Waits(Run(steps).value, me)
    ensures Run(steps + more).Some?
    ensures var s, t := Run(steps).value, Run(steps + more).value;
            t.m.lock.None? && t.released == s.released && t.clearing == s.clearing && SamePlace(s, t, me)
    decreases Measure(Run(steps).value)
  {
    hide Measure, LockInv, TokenInv, QueueInv, Next, Enabled, Run;
    var s := Run(steps).value;
    if s.m.lock.None? {
      more := [];
      assert steps + more == steps;
    } else {
      var step := StepOf(Other(me));
      RunInv(steps);
      HolderSteps(s, me);
      Extend(steps, s, step);
      Progress(s, step);
      InternalKeeps(s, step);
      var rest := MutexFrees(steps + [step], me);
      more := [step] + rest;
      assert steps + more == steps + [step] + rest;
    }
  }

  lemma {:induction false} EmptyGapStep(s: State, me: Thread)
    requires s.released && s.m.queue == [] && Gap(s, me) && (Waits(s, me) ==> s.m.lock.None?)
    ensures var step := StepOf(me);
            && Enabled(s, step) && step.Internal()
            && var t := Next(s, step);
               t.m.faulted || (t.released && t.m.queue == [] && Gap(t, me) && !Waits(t, me))
  {
  }

  lemma {:induction false} EmptyQueueFaults(steps: seq<Step>, me: Thread) returns (more: seq<Step>)
    requires Run(steps).Some?
    requires var s := Run(steps).value;
             s.released && s.m.queue == [] && Gap(s, me) && (Waits(s, me) ==> s.m.lock.None?)
    ensures Run(steps + more).Some? && Run(steps + more).value.m.faulted
    decreases Measure(Run(steps).value)
  {
    hide Measure, LockInv, TokenInv, QueueInv, Next, Enabled, Run, Gap, Waits;
    var s, step := Run(steps).value, StepOf(me);
    RunInv(steps);
    EmptyGapStep(s, me);
    Extend(steps, s, step);
    Progress(s, step);
    if Next(s, step).m.faulted {
      more := [step];
    } else {
      var rest := EmptyQueueFaults(steps + [step], me);
      more := [step] + rest;
      assert steps + more == steps + [step] + rest;
    }
  }

  /** A release in the gap: the mutex becomes free, the queue is swapped, and the runner goes on. */
  lemma {:induction false} GapFaults(steps: seq<Step>, me: Thread) returns (more: seq<Step>)
    requires Run(steps).Some?
    requires var s := Run(steps).value; s.released && s.clearing && Gap(s, me)
    ensures Run(steps + more).Some? && Run(steps + more).value.m.faulted
  {
    hide Run, RunnerNext;
    var first := [];
    assert steps + first == steps;
    if Waits(Run(steps).value, me) {
      first := MutexFrees(steps, me);
    }
    Extend(steps + first, Run(steps + first).value, SwapQueue);
    var rest := EmptyQueueFaults(steps + first + [SwapQueue], me);
    more := first + [SwapQueue] + rest;
    assert steps + more == steps + first + [SwapQueue] + rest;
  }

  /** A release while an `Add` call is about to push: the push can meet the swap. */
  lemma {:induction false} AddingRaces(steps: seq<Step>) returns (more: seq<Step>)
    requires Run(steps).Some?
    requires var s := Run(steps).value; s.released && s.clearing && Adding(s)
    ensures Run(steps + more).Some? && Racing(Run(steps + more).value)
  {
    hide Run, RunnerNext;
    more := [];
    assert steps + more == steps;
    if Run(steps).value.adder.AddLock? {
      var first := MutexFrees(steps, AdderThread);
      Extend(steps + first, Run(steps + first).value, AdderStep);
      more := first + [AdderStep];
      assert steps + more == steps + first + [AdderStep];
    }
  }

  /** Before a first release, nothing has gone wrong. */
  lemma {:induction false} FirstRelease(steps: seq<Step>)
    requires Run(steps).Some? && !Run(steps).value.released
    ensures var s := Run(steps).value;
            && !s.m.faulted && !s.clearing
            && Run(steps + [CallRelease]) == Some(s.(released := true, clearing := true))
  {
    hide TokenInv, Run, RunnerNext;
    RunInv(steps);
    Extend(steps, Run(steps).value, CallRelease);
  }

  /** At every point of every run, a release can never lead to a pop or a read of an empty queue if
      and only if no runner is between its first look at the flag and the read of the front. */
  lemma {:induction false} FaultFreeReleaseIff(steps: seq<Step>)
    requires Run(steps).Some? && !Run(steps).value.released
    ensures NeverFaults(steps) <==> !InGap(Run(steps).value)
  {
    hide Run;
    var after := steps + [CallRelease];
    FirstRelease(steps);
    if Gap(Run(steps).value, AdderThread) {
      var more := GapFaults(after, AdderThread);
    } else if Gap(Run(steps).value, LoopThread) {
      var more := GapFaults(after, LoopThread);
    } else {
      forall more: seq<Step> | Run(after + more).Some? ensures !Run(after + more).value.m.faulted {
        StaysReleased(after, more);
      }
    }
  }

  /** And the swap never meets another use of the queue either, if and only if moreover no `Add`
      call is between its look at the flag and the push. */
  lemma {:induction false} RaceFreeReleaseIff(steps: seq<Step>)
    requires Run(steps).Some? && !Run(steps).value.released
    ensures NeverRaces(steps) <==> !InGap(Run(steps).value) && !Adding(Run(steps).value)
  {
    hide Run;
    var s, after := Run(steps).value, steps + [CallRelease];
    FirstRelease(steps);
    if InGap(s) {
      FaultFreeReleaseIff(steps);
    } else if Adding(s) {
      var more := AddingRaces(after);
    } else {
      forall more: seq<Step> | Run(after + more).Some?
        ensures !Run(after + more).value.m.faulted && !Racing(Run(after + more).value)
      {
        StaysReleased(after, more);
      }
    }
  }

  predicate RunsNow(s: State, me: Thread, run: Runner) {
    match me
    case AdderThread => s.adder == AdderRuns(run)
    case LoopThread => s.looper == LooperRuns(run)
  }

  /** Under the mutex, against a release: an empty queue is not popped when it was empty at the test,
      it is a fault to pop or read it when it became empty afterwards, and a release that is seen
      there leaves the flag unset. */
  lemma {:induction false} UnderMutex(s: State, me: Thread, task: Task)
    requires s.released && !s.m.faulted
    ensures var step := StepOf(me);
            && (RunsNow(s, me, TestPop) && s.m.queue == [] ==>
                  Enabled(s, step) && Enabled(Next(s, step), step) && !Next(Next(s, step), step).m.faulted)
            && (RunsNow(s, me, Pop) || RunsNow(s, me, ReadFront) ==>
                  Enabled(s, step) && (Next(s, step).m.faulted <==> s.m.queue == []))
            && (RunsNow(s, me, TestContext(task)) ==>
                  && Enabled(s, step) && Enabled(Next(s, step), step)
                  && !Next(Next(s, step), step).m.inCalling && RunsNow(Next(Next(s, step), step), me, Unlock))
  {
  }

  // ---------- what still runs after a release

  /** A task that nothing can stop any more: posted, started, or past the last look at the flag. */
  predicate Committed(s: State) {
    || s.m.works != [] || s.looper.InCallback?
    || (s.adder.AdderRuns? && PastRecheck(s.adder.run))
    || (s.looper.LooperRuns? && PastRecheck(s.looper.run))
  }

  predicate Holds(callbacks: map<Context, Task>, c: Context, task: Task) {
    c in callbacks && callbacks[c] == task
  }

  predicate RunnerCommits(callbacks: map<Context, Task>, run: Runner, task: Task) {
    && (run.SetCallback? ==> run.task == task)
    && (run.SetRelease? || run.QueueWork? ==> Holds(callbacks, run.c, task))
  }

  /** A committed task is this one; its context holds it as far as it is written. */
  predicate Commits(s: State, task: Task) {
    && (s.m.works != [] ==> Holds(s.m.callbacks, s.m.works[0], task))
    && (s.looper.InCallback? ==> Holds(s.m.callbacks, s.looper.c, task))
    && (s.adder.AdderRuns? && PastRecheck(s.adder.run) ==> RunnerCommits(s.m.callbacks, s.adder.run, task))
    && (s.looper.LooperRuns? && PastRecheck(s.looper.run) ==> RunnerCommits(s.m.callbacks, s.looper.run, task))
  }

  /** After a release at which `ran` had run and `task` was committed, or nothing was: the task is
      still committed, or has run, and nothing else is. */
  predicate Draining(s: State, ran: seq<Task>, task: Task, committed: bool) {
    && s.released
    && (Committed(s) ==> committed && s.ran == ran && Commits(s, task))
    && (s.ran == ran || (committed && s.ran == ran + [task]))
  }

  lemma {:induction false} RunnerDrains(m: Shared, me: Thread, run: Runner, task: Task)
    requires PastRecheck(run) ==> RunnerCommits(m.callbacks, run, task)
    ensures var (n, next) := RunnerNext(m, true, me, run);
            && (PastRecheck(next) ==> PastRecheck(run) && RunnerCommits(n.callbacks, next, task) && n.works == m.works)
            && (!PastRecheck(run) ==> n.works == m.works && n.callbacks == m.callbacks)
            && (PastRecheck(run) && !PastRecheck(next) ==>
                  next.Exit? && n.works == m.works + [run.c] && Holds(n.callbacks, run.c, task))
  {
  }

  lemma {:induction false} AdderDrains(s: State, ran: seq<Task>, task: Task, committed: bool)
    requires TokenInv(s) && Draining(s, ran, task, committed) && Enabled(s, AdderStep)
    ensures Draining(AdderNext(s), ran, task, committed) && (Committed(s) ==> Committed(AdderNext(s)))
  {
    if s.adder.AdderRuns? {
      hide AdderNext;
      AdderRunsDrains(s, ran, task, committed);
    } else {
      hide RunnerNext, Holds, RunnerCommits, TokenInv;
      var t := AdderNext(s);
      assert t.m == s.m.(lock := t.m.lock, queue := t.m.queue) && t.looper == s.looper && t.ran == s.ran;
    }
  }

  lemma {:induction false} AdderRunsDrains(s: State, ran: seq<Task>, task: Task, committed: bool)
    requires TokenInv(s) && Draining(s, ran, task, committed) && s.adder.AdderRuns?
    ensures Draining(AdderNext(s), ran, task, committed) && (Committed(s) ==> Committed(AdderNext(s)))
  {
    hide RunnerNext, Holds, RunnerCommits, Written;
    RunnerDrains(s.m, AdderThread, s.adder.run, task);
    assert PastRecheck(s.adder.run) ==> AdderHas(s);
  }

  lemma {:induction false} LooperDrains(s: State, ran: seq<Task>, task: Task, committed: bool)
    requires TokenInv(s) && Draining(s, ran, task, committed) && Enabled(s, LooperStep)
    ensures var t := LooperNext(s);
            && Draining(t, ran, task, committed)
            && (Committed(s) ==> Committed(t) || t.ran == ran + [task])
  {
    hide RunnerNext, RunnerCommits, Written;
    if s.looper.LooperRuns? {
      RunnerDrains(s.m, LoopThread, s.looper.run, task);
      assert PastRecheck(s.looper.run) ==> LooperHas(s);
    }
  }

  lemma {:induction false} DrainingStep(s: State, step: Step, ran: seq<Task>, task: Task, committed: bool)
    requires TokenInv(s) && Draining(s, ran, task, committed) && Enabled(s, step)
    ensures var t := Next(s, step);
            && Draining(t, ran, task, committed)
            && (Committed(s) ==> Committed(t) || t.ran == ran + [task])
  {
    hide AdderNext, LooperNext, RunnerCommits, Holds, Written;
    match step
    case AdderStep => AdderDrains(s, ran, task, committed);
    case LooperStep => LooperDrains(s, ran, task, committed);
    case StartWork(k) => assert |s.m.works| == 1;
    case _ =>
  }

  lemma {:induction false} DrainingRun(steps: seq<Step>, more: seq<Step>, ran: seq<Task>, task: Task, committed: bool)
    requires Run(steps).Some? && Run(steps + more).Some? && Draining(Run(steps).value, ran, task, committed)
    ensures Draining(Run(steps + more).value, ran, task, committed)
    decreases |more|
  {
    hide Draining, Next, Enabled, LockInv, TokenInv, QueueInv;
    if more == [] {
      assert steps + more == steps;
    } else {
      var init, step := more[..|more| - 1], more[|more| - 1];
      assert (steps + more)[..|steps + more| - 1] == steps + init && (steps + more)[|steps + more| - 1] == step;
      DrainingRun(steps, init, ran, task, committed);
      RunInv(steps + init);
      DrainingStep(Run(steps + init).value, step, ran, task, committed);
    }
  }

  /** Before a release, a committed task is the front of the queue. */
  lemma {:induction false} FrontCommits(s: State)
    requires TokenInv(s) && QueueInv(s) && Committed(s)
    ensures s.m.queue != [] && Commits(s, s.m.queue[0])
  {
  }

  /** An internal step that brings the committed task on. */
  function CommittedStep(s: State): Step {
    if s.adder.AdderRuns? && PastRecheck(s.adder.run) then AdderStep
    else if s.looper.NoWork? then StartWork(0)
    else LooperStep
  }

  lemma {:induction false} CommittedCanStep(s: State)
    requires TokenInv(s) && Committed(s)
    ensures Enabled(s, CommittedStep(s)) && CommittedStep(s).Internal()
  {
  }

  /** The committed task does run. */
  lemma {:induction false} CommittedRuns(steps: seq<Step>, ran: seq<Task>, task: Task) returns (more: seq<Step>)
    requires Run(steps).Some? && Committed(Run(steps).value) && Draining(Run(steps).value, ran, task, true)
    ensures Run(steps + more).Some? && Run(steps + more).value.ran == ran + [task]
    decreases Measure(Run(steps).value)
  {
    hide Measure, Draining, Committed, CommittedStep, Next, Enabled, LockInv, TokenInv, QueueInv, Run;
    var s := Run(steps).value;
    var step := CommittedStep(s);
    RunInv(steps);
    CommittedCanStep(s);
    Extend(steps, s, step);
    Progress(s, step);
    DrainingStep(s, step, ran, task, true);
    if Next(s, step).ran == ran + [task] {
      more := [step];
    } else {
      var rest := CommittedRuns(steps + [step], ran, task);
      more := [step] + rest;
      assert steps + more == steps + [step] + rest;
    }
  }

  /** Whatever happens after a release, at most one more task runs: the front of the queue, and
      only if it was posted, started, or past the last look at the release flag. Without such a
      task nothing is posted any more. */
  lemma {:induction false} AtMostOneRunsAfterRelease(steps: seq<Step>, more: seq<Step>)
    requires Run(steps).Some? && !Run(steps).value.released && Run(steps + [CallRelease] + more).Some?
    ensures var s, t := Run(steps).value, Run(steps + [CallRelease] + more).value;
            && (t.ran == s.ran || (Committed(s) && s.m.queue != [] && t.ran == s.ran + [s.m.queue[0]]))
            && (!Committed(s) ==> t.m.works == [])
  {
    hide Run, RunnerNext, Tokens, RunnerInv;
    var s := Run(steps).value;
    FirstRelease(steps);
    RunInv(steps);
    var task := Task(0, None, false);
    if Committed(s) {
      FrontCommits(s);
      task := s.m.queue[0];
    }
    DrainingRun(steps + [CallRelease], more, s.ran, task, Committed(s));
  }

  /** So a release prevents every further task exactly when none was committed. */
  lemma {:induction false} RunsAfterReleaseIff(steps: seq<Step>)
    requires Run(steps).Some? && !Run(steps).value.released
    ensures (exists more: seq<Step> :: Run(steps + [CallRelease] + more).Some?
                                       && Run(steps + [CallRelease] + more).value.ran != Run(steps).value.ran)
            <==> Committed(Run(steps).value)
  {
    hide Run, RunnerNext, Tokens, RunnerInv, Committed;
    var s, after := Run(steps).value, steps + [CallRelease];
    if Committed(s) {
      FirstRelease(steps);
      RunInv(steps);
      FrontCommits(s);
      StillCommitted(s);
      var more := CommittedRuns(after, s.ran, s.m.queue[0]);
      assert Run(after + more).value.ran != s.ran;
    } else {
      forall more: seq<Step> | Run(after + more).Some? ensures Run(after + more).value.ran == s.ran {
        AtMostOneRunsAfterRelease(steps, more);
      }
    }
  }

  lemma {:induction false} StillCommitted(s: State)
    requires Committed(s) && s.m.queue != [] && Commits(s, s.m.queue[0])
    ensures var t := s.(released := true, clearing := true);
            Committed(t) && Draining(t, s.ran, s.m.queue[0], true)
  {
  }

  // ---------- what a caller of Release can know

  /** All a caller can see is whether an `Add` call or a completion on the loop thread is under way. */
  predicate Looks(s: State, adding: bool, completing: bool) {
    !s.released && adding == !s.adder.NoAdder? && completing == !s.looper.NoWork?
  }

  /** A caller may release exactly when it has made sure that neither is: then every release is
      safe, and in each other situation there is a run in which it is not. */
  lemma {:induction false} CallerRule(adding: bool, completing: bool)
    ensures (forall steps: seq<Step> :: Run(steps).Some? && Looks(Run(steps).value, adding, completing)
                                        ==> NeverRaces(steps))
            <==> !adding && !completing
  {
    hide Run, NeverRaces;
    if !adding && !completing {
      forall steps: seq<Step> | Run(steps).Some? && Looks(Run(steps).value, false, false)
        ensures NeverRaces(steps)
      {
        RaceFreeReleaseIff(steps);
      }
    } else {
      var steps := UnsafeRun(adding, completing);
      RaceFreeReleaseIff(steps);
    }
  }

  lemma {:induction false} Go(steps: seq<Step>, s: State, step: Step) returns (after: seq<Step>, t: State)
    requires Run(steps) == Some(s) && Enabled(s, step)
    ensures after == steps + [step] && t == Next(s, step) && Run(after) == Some(t)
  {
    after, t := steps + [step], Next(s, step);
    Extend(steps, s, step);
  }

  lemma {:induction false} UnsafeRun(adding: bool, completing: bool) returns (steps: seq<Step>)
    requires adding || completing
    ensures Run(steps).Some? && Looks(Run(steps).value, adding, completing)
    ensures InGap(Run(steps).value) || Adding(Run(steps).value)
  {
    hide Run;
    var s := INIT;
    steps := [];
    RunNothing();
    var t := Task(0, Some(0), false);
    if completing {
      steps, s := CompletionRun(t);
    }
    if adding {
      steps, s := Go(steps, s, CallAdd(t));
      steps, s := Go(steps, s, AdderStep);
    }
  }

  lemma {:induction false} RunNothing()
    ensures Run([]) == Some(INIT)
  {
  }

  /** One task added; its runner has left the mutex with it. */
  lemma {:induction false} ReadRun(t: Task) returns (steps: seq<Step>, s: State)
    requires t.context == Some(0)
    ensures Run(steps) == Some(s)
    ensures s == INIT.(m := INIT.m.(queue := [t], inCalling := true), adder := AdderRuns(Recheck(0, t)), added := [t])
  {
    hide Run;
    steps, s := AddedRun(t);
    steps, s := Go(steps, s, AdderStep);
    steps, s := Go(steps, s, AdderStep);
    steps, s := Go(steps, s, AdderStep);
  }

  /** It has posted the task to its context. */
  lemma {:induction false} PostedRun(t: Task) returns (steps: seq<Step>, s: State)
    requires t.context == Some(0)
    ensures Run(steps) == Some(s) && !s.released && s.adder.NoAdder? && s.looper.NoWork? && s.m.works == [0]
    ensures s.m.lock.None? && s.m.callbacks == s.m.releases == map[0 := t]
  {
    hide Run;
    steps, s := ReadRun(t);
    steps, s := Go(steps, s, AdderStep);
    steps, s := Go(steps, s, AdderStep);
    steps, s := Go(steps, s, AdderStep);
    assert s.adder == AdderRuns(QueueWork(0, t)) && [] + [0] == [0];
    steps, s := Go(steps, s, AdderStep);
  }

  /** The task has run; its completion is about to take the mutex for the next run. */
  lemma {:induction false} CompletionRun(t: Task) returns (steps: seq<Step>, s: State)
    requires t.context == Some(0) && !t.ownRelease
    ensures Run(steps) == Some(s) && !s.released && s.adder.NoAdder? && s.looper == LooperRuns(TakeLock(true))
  {
    hide Run;
    steps, s := PostedRun(t);
    steps, s := Go(steps, s, StartWork(0));
    steps, s := Go(steps, s, LooperStep);
    steps, s := Go(steps, s, LooperStep);
    steps, s := Go(steps, s, LooperStep);
    steps, s := Go(steps, s, LooperStep);
  }

  /** One task pushed; the adder has found the flag unset. */
  lemma {:induction false} PushedRun(t: Task) returns (steps: seq<Step>, s: State)
    ensures steps == [CallAdd(t)] + seq(5, _ => AdderStep) && Run(steps) == Some(s)
    ensures s == INIT.(m := INIT.m.(queue := [t]), adder := AdderRuns(SetFlag(false)), added := [t])
  {
    hide Run, RunnerNext;
    RunNothing();
    steps, s := Go([], INIT, CallAdd(t));
    steps, s := Go(steps, s, AdderStep);
    steps, s := Go(steps, s, AdderStep);
    steps, s := Go(steps, s, AdderStep);
    assert [] + [t] == [t];
    steps, s := Go(steps, s, AdderStep);
    steps, s := Go(steps, s, AdderStep);
  }

  /** Its runner has found the queue non-empty and reads the front next. */
  lemma {:induction false} AddedRun(t: Task) returns (steps: seq<Step>, s: State)
    ensures steps == [CallAdd(t)] + seq(9, _ => AdderStep) && Run(steps) == Some(s)
    ensures s == INIT.(m := INIT.m.(queue := [t], inCalling := true, lock := Some(AdderThread)),
                       adder := AdderRuns(ReadFront), added := [t])
  {
    hide Run;
    steps, s := PushedRun(t);
    var pushed := steps;
    steps, s := Go(steps, s, AdderStep);
    steps, s := Go(steps, s, AdderStep);
    steps, s := Go(steps, s, AdderStep);
    steps, s := Go(steps, s, AdderStep);
    assert steps == pushed + [AdderStep, AdderStep, AdderStep, AdderStep];
  }

  /** The mutex is no help: a release between the test for an empty queue and the read of its
      front, both under the mutex, makes that read fault. */
  lemma {:induction false} ReleaseUnderMutexFaults(t: Task)
    ensures var steps := [CallAdd(t)] + seq(9, _ => AdderStep) + [CallRelease, SwapQueue, AdderStep];
            Run(steps).Some? && Run(steps).value.m.faulted
  {
    hide Run;
    var steps, s := AddedRun(t);
    var before := steps;
    steps, s := Go(steps, s, CallRelease);
    steps, s := Go(steps, s, SwapQueue);
    steps, s := Go(steps, s, AdderStep);
    assert steps == before + [CallRelease, SwapQueue, AdderStep];
  }
}
