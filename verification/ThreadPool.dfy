/** The thread pool protocol of processor_old (and of processor_ex, whose loop is the same): one
    step for each stretch of code under the mutex, each notification outside it, and each wake-up. */
module ThreadPool {
  import opened Wrappers

  /** Where a worker is: at the head of its loop, asleep in m_cv_run_exit__loop.wait, woken but
      not yet rechecking, running a task, or returned. */
  datatype Worker = Ready | Blocked | Woken | Running(task: nat) | Exited

  // A caller of wait(i_task_count).
  datatype Waiter = Away | Waiting(count: nat) | Notified(count: nat)

  // setCoreCount: not running; between setting m_thread_count and notify_all; joining.
  datatype Boss = Idle | Resizing | Joining

  /** Tasks are numbered in the order in which run() accepts them; started counts those taken
      off the queue. pendingNotifies are the notify_one calls of run() still to be made. */
  datatype Pool = Pool(
    queue: seq<nat>, accepted: nat, started: nat, finished: set<nat>,
    busyCount: nat, taskCount: nat, threadCount: nat,
    workers: seq<Worker>, pendingNotifies: nat, boss: Boss, waiters: seq<Waiter>)

  datatype Submitter = Outside | Task(worker: nat)

  datatype Step =
    | Submit(caller: Submitter)
    | NotifyOne(sleeper: Option<nat>)
    | Spurious(worker: nat)
    | Top(worker: nat)
    | Recheck(worker: nat)
    | Finish(worker: nat, woken: Option<nat>)
    | SetTarget(count: nat)
    | Spawn
    | Resized
    | NotifyAll
    | Join
    | Joined
    | BeginWait(waiter: nat, count: nat)
    | RecheckWait(waiter: nat)
    | SpuriousWait(waiter: nat)

  function Initial(callers: nat): Pool {
    Pool([], 0, 0, {}, 0, 0, 0, [], 0, Idle, seq(callers, i => Away))
  }

  predicate Alive(p: Pool, w: nat) {
    w < |p.workers| && !p.workers[w].Exited?
  }

  predicate WaitCondition(p: Pool, count: nat) {
    p.queue == [] && p.busyCount == 0 && p.taskCount >= count
  }

  // notify_one on a condition variable wakes a sleeper if there is one.
  predicate PicksWorker(p: Pool, w: Option<nat>) {
    match w
    case Some(k) => k < |p.workers| && p.workers[k].Blocked?
    case None => forall k :: 0 <= k < |p.workers| ==> !p.workers[k].Blocked?
  }

  predicate PicksWaiter(p: Pool, w: Option<nat>) {
    match w
    case Some(k) => k < |p.waiters| && p.waiters[k].Waiting?
    case None => forall k :: 0 <= k < |p.waiters| ==> !p.waiters[k].Waiting?
  }

  predicate Drains(p: Pool) {
    p.queue == [] && p.busyCount == 1
  }

  predicate Enabled(p: Pool, s: Step) {
    match s
    case Submit(c) => c.Task? ==> c.worker < |p.workers| && p.workers[c.worker].Running?
    case NotifyOne(w) => p.pendingNotifies > 0 && PicksWorker(p, w)
    case Spurious(w) => w < |p.workers| && p.workers[w].Blocked?
    case Top(w) => w < |p.workers| && p.workers[w].Ready?
    case Recheck(w) => w < |p.workers| && p.workers[w].Woken?
    case Finish(w, k) =>
      w < |p.workers| && p.workers[w].Running? && p.busyCount > 0 && (if Drains(p) then PicksWaiter(p, k) else k.None?)
    case SetTarget(count) => p.boss.Idle?
    case Spawn => p.boss.Resizing? && |p.workers| < p.threadCount
    case Resized => p.boss.Resizing? && |p.workers| == p.threadCount
    case NotifyAll => p.boss.Resizing? && |p.workers| > p.threadCount
    case Join => p.boss.Joining? && |p.workers| > p.threadCount && p.workers[|p.workers| - 1].Exited?
    case Joined => p.boss.Joining? && |p.workers| == p.threadCount
    case BeginWait(k, count) => k < |p.waiters| && p.waiters[k].Away?
    case RecheckWait(k) => k < |p.waiters| && p.waiters[k].Notified?
    case SpuriousWait(k) => k < |p.waiters| && p.waiters[k].Waiting?
  }

  function Put(p: Pool, w: nat, x: Worker): Pool
    requires w < |p.workers|
  {
    p.(workers := p.workers[w := x])
  }

  function Take(p: Pool, w: nat): Pool
    requires w < |p.workers| && p.queue != []
  {
    Put(p, w, Running(p.queue[0])).(queue := p.queue[1..], started := p.started + 1, busyCount := p.busyCount + 1)
  }

  // wait() returns and resets the count, or sleeps.
  function WaitOrReturn(p: Pool, k: nat, count: nat): Pool
    requires k < |p.waiters|
  {
    if WaitCondition(p, count) then p.(taskCount := 0, waiters := p.waiters[k := Away])
    else p.(waiters := p.waiters[k := Waiting(count)])
  }

  function WakeAll(ws: seq<Worker>): (r: seq<Worker>)
    ensures |r| == |ws| && forall k :: 0 <= k < |ws| ==> r[k] == if ws[k].Blocked? then Woken else ws[k]
  {
    if ws == [] then [] else [if ws[0].Blocked? then Woken else ws[0]] + WakeAll(ws[1..])
  }

  function Do(p: Pool, s: Step): Pool
    requires Enabled(p, s)
  {
    match s
    case Submit(_) =>
      p.(queue := p.queue + [p.accepted], accepted := p.accepted + 1, taskCount := p.taskCount + 1,
         pendingNotifies := p.pendingNotifies + 1)
    case NotifyOne(w) =>
      var q := p.(pendingNotifies := p.pendingNotifies - 1);
      if w.Some? then Put(q, w.value, Woken) else q
    case Spurious(w) => Put(p, w, Woken)
    case Top(w) =>
      if p.queue != [] then Take(p, w)
      else if p.threadCount < w + 1 then Put(p, w, Exited)
      else Put(p, w, Blocked)
    case Recheck(w) =>
      if p.queue != [] then Take(p, w)
      else if p.threadCount < w + 1 then Put(p, w, Ready)
      else Put(p, w, Blocked)
    case Finish(w, k) =>
      var q := Put(p, w, Ready).(finished := p.finished + {p.workers[w].task}, busyCount := p.busyCount - 1);
      if Drains(p) && k.Some? then q.(waiters := q.waiters[k.value := Notified(q.waiters[k.value].count)]) else q
    case SetTarget(count) => p.(threadCount := count, boss := Resizing)
    case Spawn => p.(workers := p.workers + [Ready])
    case Resized => p.(boss := Idle)
    case NotifyAll => p.(workers := WakeAll(p.workers), boss := Joining)
    case Join => p.(workers := p.workers[..|p.workers| - 1])
    case Joined => p.(boss := Idle)
    case BeginWait(k, count) => WaitOrReturn(p, k, count)
    case RecheckWait(k) => WaitOrReturn(p, k, p.waiters[k].count)
    case SpuriousWait(k) => p.(waiters := p.waiters[k := Notified(p.waiters[k].count)])
  }

  // ---------------------------------------------------------------- exactly once

  function RunningCount(ws: seq<Worker>): nat {
    if ws == [] then 0 else (if ws[0].Running? then 1 else 0) + RunningCount(ws[1..])
  }

  /** The queue holds the accepted tasks that have not started, in order; every started task is
      either finished or run by exactly one worker; m_busy_count counts the running workers. */
  ghost predicate ExactlyOnce(p: Pool) {
    && p.started + |p.queue| == p.accepted
    && (forall i :: 0 <= i < |p.queue| ==> p.queue[i] == p.started + i)
    && (forall t :: t in p.finished ==> t < p.started)
    && (forall w :: 0 <= w < |p.workers| && p.workers[w].Running? ==>
       p.workers[w].task < p.started && p.workers[w].task !in p.finished)
    && (forall v, w :: 0 <= v < w < |p.workers| && p.workers[v].Running? && p.workers[w].Running? ==>
       p.workers[v] != p.workers[w])
    && (forall t: nat :: t < p.started ==>
       t in p.finished || exists w :: 0 <= w < |p.workers| && p.workers[w] == Running(t))
    && p.busyCount == RunningCount(p.workers)
  }

  lemma {:induction false} CountOfUpdate(ws: seq<Worker>, w: nat, x: Worker)
    requires w < |ws|
    ensures RunningCount(ws[w := x]) ==
            RunningCount(ws) - (if ws[w].Running? then 1 else 0) + (if x.Running? then 1 else 0)
    ensures ws[w].Running? ==> RunningCount(ws) > 0
  {
    if w == 0 {
      assert ws[w := x][1..] == ws[1..];
    } else {
      assert ws[w := x][1..] == ws[1..][w - 1 := x];
      CountOfUpdate(ws[1..], w - 1, x);
    }
  }

  lemma {:induction false} CountOfSnoc(ws: seq<Worker>, x: Worker)
    ensures RunningCount(ws + [x]) == RunningCount(ws) + if x.Running? then 1 else 0
  {
    if ws == [] {
      assert ws + [x] == [x];
    } else {
      assert (ws + [x])[1..] == ws[1..] + [x];
      CountOfSnoc(ws[1..], x);
    }
  }

  lemma {:induction false} CountOfWakeAll(ws: seq<Worker>)
    ensures RunningCount(WakeAll(ws)) == RunningCount(ws)
  {
    if ws != [] {
      assert WakeAll(ws)[1..] == WakeAll(ws[1..]);
      CountOfWakeAll(ws[1..]);
    }
  }

  lemma TakeOnce(p: Pool, w: nat)
    requires ExactlyOnce(p) && w < |p.workers| && !p.workers[w].Running? && p.queue != []
    ensures ExactlyOnce(Take(p, w))
  {
    var q := Take(p, w);
    CountOfUpdate(p.workers, w, Running(p.queue[0]));
    assert q.workers[w] == Running(p.started);
    forall t: nat | t < q.started && t !in q.finished
      ensures exists v :: 0 <= v < |q.workers| && q.workers[v] == Running(t)
    {
      if t < p.started {
        var v :| 0 <= v < |p.workers| && p.workers[v] == Running(t);
        assert q.workers[v] == Running(t);
      }
    }
  }

  // A worker that runs nothing changes state.
  lemma PutOnce(p: Pool, w: nat, x: Worker)
    requires ExactlyOnce(p) && w < |p.workers| && !p.workers[w].Running? && !x.Running?
    ensures ExactlyOnce(Put(p, w, x))
  {
    var q := Put(p, w, x);
    CountOfUpdate(p.workers, w, x);
    forall t: nat | t < q.started && t !in q.finished
      ensures exists v :: 0 <= v < |q.workers| && q.workers[v] == Running(t)
    {
      var v :| 0 <= v < |p.workers| && p.workers[v] == Running(t);
      assert q.workers[v] == Running(t);
    }
  }

  lemma FinishOnce(p: Pool, w: nat, k: Option<nat>)
    requires ExactlyOnce(p) && Enabled(p, Finish(w, k))
    ensures ExactlyOnce(Do(p, Finish(w, k)))
  {
    var q := Do(p, Finish(w, k));
    CountOfUpdate(p.workers, w, Ready);
    forall t: nat | t < q.started && t !in q.finished
      ensures exists v :: 0 <= v < |q.workers| && q.workers[v] == Running(t)
    {
      var v :| 0 <= v < |p.workers| && p.workers[v] == Running(t);
      assert q.workers[v] == Running(t);
    }
  }

  // The list of workers changes, but not who runs what.
  lemma ResizeOnce(p: Pool, ws: seq<Worker>, q: Pool)
    requires ExactlyOnce(p) && q == p.(workers := ws, boss := q.boss)
    requires RunningCount(ws) == RunningCount(p.workers)
    requires forall v :: 0 <= v < |ws| && ws[v].Running? ==> v < |p.workers| && p.workers[v] == ws[v]
    requires forall v :: 0 <= v < |p.workers| && p.workers[v].Running? ==> v < |ws| && p.workers[v] == ws[v]
    ensures ExactlyOnce(q)
  {
    forall t: nat | t < q.started && t !in q.finished
      ensures exists v :: 0 <= v < |q.workers| && q.workers[v] == Running(t)
    {
      var v :| 0 <= v < |p.workers| && p.workers[v] == Running(t);
      assert q.workers[v] == Running(t);
    }
  }

  // A worker looks at the queue: it takes a task or changes to the given state.
  lemma LookOnce(p: Pool, w: nat, x: Worker)
    requires ExactlyOnce(p) && w < |p.workers| && !p.workers[w].Running? && !x.Running?
    ensures p.queue != [] ==> ExactlyOnce(Take(p, w))
    ensures ExactlyOnce(Put(p, w, x))
  {
    if p.queue != [] { TakeOnce(p, w); }
    PutOnce(p, w, x);
  }

  lemma NotifyOnce(p: Pool, k: Option<nat>)
    requires ExactlyOnce(p) && Enabled(p, NotifyOne(k))
    ensures ExactlyOnce(Do(p, NotifyOne(k)))
  {
    if k.Some? { PutOnce(p.(pendingNotifies := p.pendingNotifies - 1), k.value, Woken); }
  }

  lemma SpawnOnce(p: Pool)
    requires ExactlyOnce(p) && Enabled(p, Spawn)
    ensures ExactlyOnce(Do(p, Spawn))
  {
    CountOfSnoc(p.workers, Ready);
    ResizeOnce(p, p.workers + [Ready], Do(p, Spawn));
  }

  lemma WakeAllOnce(p: Pool)
    requires ExactlyOnce(p) && Enabled(p, NotifyAll)
    ensures ExactlyOnce(Do(p, NotifyAll))
  {
    CountOfWakeAll(p.workers);
    ResizeOnce(p, WakeAll(p.workers), Do(p, NotifyAll));
  }

  lemma JoinOnce(p: Pool)
    requires ExactlyOnce(p) && Enabled(p, Join)
    ensures ExactlyOnce(Do(p, Join))
  {
    var ws := p.workers[..|p.workers| - 1];
    assert p.workers == ws + [p.workers[|p.workers| - 1]];
    CountOfSnoc(ws, p.workers[|p.workers| - 1]);
    ResizeOnce(p, ws, Do(p, Join));
  }

  // Steps that touch neither tasks nor workers, and a submission.
  lemma OtherOnce(p: Pool, s: Step)
    requires ExactlyOnce(p) && Enabled(p, s)
    requires s.Submit? || s.SetTarget? || s.Resized? || s.Joined? || s.BeginWait? || s.RecheckWait? || s.SpuriousWait?
    ensures ExactlyOnce(Do(p, s))
  {}

  lemma StepOnce(p: Pool, s: Step)
    requires ExactlyOnce(p) && Enabled(p, s)
    ensures ExactlyOnce(Do(p, s))
  {
    match s
    case NotifyOne(k) => NotifyOnce(p, k);
    case Spurious(w) => PutOnce(p, w, Woken);
    case Top(w) => LookOnce(p, w, if p.threadCount < w + 1 then Exited else Blocked);
    case Recheck(w) => LookOnce(p, w, if p.threadCount < w + 1 then Ready else Blocked);
    case Finish(w, k) => FinishOnce(p, w, k);
    case Spawn => SpawnOnce(p);
    case NotifyAll => WakeAllOnce(p);
    case Join => JoinOnce(p);
    case _ => OtherOnce(p, s);
  }

  /** With nobody busy and nothing queued, every accepted task has finished. */
  lemma QuietMeansDone(p: Pool)
    requires ExactlyOnce(p) && p.queue == [] && p.busyCount == 0
    ensures forall t: nat :: t in p.finished <==> t < p.accepted
  {
    forall t: nat | t < p.started
      ensures t in p.finished
    {
      if t !in p.finished {
        var w :| 0 <= w < |p.workers| && p.workers[w] == Running(t);
        CountOfUpdate(p.workers, w, Ready);
      }
    }
  }

  // ---------------------------------------------------------------- no lost wake-up

  /** A non-empty queue with a worker alive: one of them is not asleep, or a notify is still to
      come. */
  ghost predicate NoLostWakeup(p: Pool) {
    p.queue != [] && (exists w: nat :: Alive(p, w)) ==>
      p.pendingNotifies > 0 || exists w: nat :: Alive(p, w) && !p.workers[w].Blocked?
  }

  lemma StepKeepsAwake(p: Pool, s: Step)
    requires NoLostWakeup(p) && Enabled(p, s)
    ensures NoLostWakeup(Do(p, s))
  {
    var q := Do(p, s);
    if !s.Submit? && q.queue != [] && q.pendingNotifies == 0 && exists w: nat :: Alive(q, w) {
      var w: nat :| Alive(q, w);
      if s.NotifyOne? {
        var v: nat := if s.sleeper.Some? then s.sleeper.value else w;
        assert Alive(q, v) && !q.workers[v].Blocked?;
      } else if s.Spurious? || s.Top? || s.Recheck? || s.Finish? {
        assert Alive(q, s.worker) && !q.workers[s.worker].Blocked?;
      } else if s.Spawn? {
        assert Alive(q, |p.workers|) && !q.workers[|p.workers|].Blocked?;
      } else if s.NotifyAll? {
        assert !q.workers[w].Blocked?;
      } else {
        assert Alive(p, w);
        var v: nat :| Alive(p, v) && !p.workers[v].Blocked?;
        assert Alive(q, v) && !q.workers[v].Blocked?;
      }
    }
  }

  /** Then some step that leads to a task being taken is enabled. */
  lemma QueueIsServed(p: Pool) returns (s: Step)
    requires NoLostWakeup(p) && ExactlyOnce(p) && p.queue != [] && exists w: nat :: Alive(p, w)
    ensures Enabled(p, s) && (s.NotifyOne? || s.Top? || s.Recheck? || s.Finish?)
  {
    if p.pendingNotifies > 0 {
      if w :| 0 <= w < |p.workers| && p.workers[w].Blocked? {
        s := NotifyOne(Some(w));
      } else {
        s := NotifyOne(None);
      }
    } else {
      var w: nat :| Alive(p, w) && !p.workers[w].Blocked?;
      match p.workers[w]
      case Ready => s := Top(w);
      case Woken => s := Recheck(w);
      case Running(_) =>
        CountOfUpdate(p.workers, w, Ready);
        s := Finish(w, None);
    }
  }

  /** A worker that must go and sleeps: notify_all is still to come, so join never waits for a
      sleeper that nobody wakes. Exited workers are surplus ones, and outside setCoreCount there
      are none. */
  ghost predicate NoLostShutdown(p: Pool) {
    && (forall w :: 0 <= w < |p.workers| && p.workers[w].Blocked? ==> w < p.threadCount || p.boss.Resizing?)
    && (forall w :: 0 <= w < |p.workers| && p.workers[w].Exited? ==> p.threadCount <= w)
    && (p.boss.Idle? ==> |p.workers| == p.threadCount)
  }

  lemma StepKeepsShutdown(p: Pool, s: Step)
    requires NoLostShutdown(p) && Enabled(p, s)
    ensures NoLostShutdown(Do(p, s))
  {}

  // ---------------------------------------------------------------- a single caller of wait

  /** The only caller of wait sleeps un-notified only while its condition is false. */
  ghost predicate WaiterSafe(p: Pool) {
    |p.waiters| == 1 && (p.waiters[0].Waiting? ==> !WaitCondition(p, p.waiters[0].count))
  }

  lemma StepKeepsWaiter(p: Pool, s: Step)
    requires WaiterSafe(p) && Enabled(p, s)
    ensures WaiterSafe(Do(p, s))
  {}

  // ---------------------------------------------------------------- runs

  predicate AllEnabled(p: Pool, steps: seq<Step>)
    decreases |steps|
  {
    steps == [] || (Enabled(p, steps[0]) && AllEnabled(Do(p, steps[0]), steps[1..]))
  }

  function After(p: Pool, steps: seq<Step>): Pool
    requires AllEnabled(p, steps)
    decreases |steps|
  {
    if steps == [] then p else After(Do(p, steps[0]), steps[1..])
  }

  ghost predicate Safe(p: Pool) {
    ExactlyOnce(p) && NoLostWakeup(p) && NoLostShutdown(p)
  }

  lemma {:induction false} RunIsSafe(p: Pool, steps: seq<Step>)
    requires Safe(p) && AllEnabled(p, steps)
    ensures Safe(After(p, steps))
    decreases |steps|
  {
    if steps != [] {
      StepOnce(p, steps[0]);
      StepKeepsAwake(p, steps[0]);
      StepKeepsShutdown(p, steps[0]);
      RunIsSafe(Do(p, steps[0]), steps[1..]);
    }
  }

  /** In every run of a pool: tasks run exactly once, no wake-up and no shutdown is lost. */
  lemma PoolIsSafe(callers: nat, steps: seq<Step>)
    requires AllEnabled(Initial(callers), steps)
    ensures Safe(After(Initial(callers), steps))
  {
    RunIsSafe(Initial(callers), steps);
  }

  lemma {:induction false} RunKeepsWaiter(p: Pool, steps: seq<Step>)
    requires WaiterSafe(p) && AllEnabled(p, steps)
    ensures WaiterSafe(After(p, steps))
    decreases |steps|
  {
    if steps != [] {
      StepKeepsWaiter(p, steps[0]);
      RunKeepsWaiter(Do(p, steps[0]), steps[1..]);
    }
  }

  /** In every run with one caller of wait, it is notified when its condition becomes true. */
  lemma WaiterIsNotified(steps: seq<Step>)
    requires AllEnabled(Initial(1), steps)
    ensures var p := After(Initial(1), steps);
            |p.waiters| == 1 && (p.waiters[0].Waiting? ==> !WaitCondition(p, p.waiters[0].count))
  {
    RunKeepsWaiter(Initial(1), steps);
  }

  /** A call of wait returns with this step: its caller is away again. */
  predicate Returns(p: Pool, s: Step) {
    Enabled(p, s) && (s.BeginWait? || s.RecheckWait?) && Do(p, s).waiters[s.waiter].Away?
  }

  /** The submissions of a run since a call of wait returned last, from n before the run. */
  function Submissions(p: Pool, steps: seq<Step>, n: nat): nat
    requires AllEnabled(p, steps)
    decreases |steps|
  {
    if steps == [] then n
    else Submissions(Do(p, steps[0]), steps[1..],
                     if steps[0].Submit? then n + 1 else if Returns(p, steps[0]) then 0 else n)
  }

  /** What caller k last called wait with, or n if it did not in this run. */
  function LastCall(steps: seq<Step>, k: nat, n: nat): nat {
    if steps == [] then n
    else LastCall(steps[1..], k, if steps[0].BeginWait? && steps[0].waiter == k then steps[0].count else n)
  }

  lemma {:induction false} CountsSubmissions(p: Pool, steps: seq<Step>)
    requires AllEnabled(p, steps)
    ensures After(p, steps).taskCount == Submissions(p, steps, p.taskCount)
    decreases |steps|
  {
    if steps != [] { CountsSubmissions(Do(p, steps[0]), steps[1..]); }
  }

  lemma {:induction false} KeepsCall(p: Pool, steps: seq<Step>, k: nat, n: nat)
    requires AllEnabled(p, steps) && k < |p.waiters| && (!p.waiters[k].Away? ==> p.waiters[k].count == n)
    ensures var q := After(p, steps);
            k < |q.waiters| && (!q.waiters[k].Away? ==> q.waiters[k].count == LastCall(steps, k, n))
    decreases |steps|
  {
    if steps != [] {
      var s := steps[0];
      KeepsCall(Do(p, s), steps[1..], k, if s.BeginWait? && s.waiter == k then s.count else n);
    }
  }

  /** What wait(n) waits for: the call returns with a step if and only if that step is its first look
      or the look after a wake-up, no task is queued or running, and at least n tasks have been
      submitted since a call of wait returned last. */
  lemma ReturnsExactly(callers: nat, steps: seq<Step>, s: Step)
    requires AllEnabled(Initial(callers), steps) && (s.BeginWait? || s.RecheckWait?)
    ensures var p := After(Initial(callers), steps);
            Returns(p, s) <==>
              && Enabled(p, s) && p.queue == [] && (forall w :: 0 <= w < |p.workers| ==> !p.workers[w].Running?)
              && Submissions(Initial(callers), steps, 0)
                 >= if s.BeginWait? then s.count else LastCall(steps, s.waiter, 0)
  {
    var p := After(Initial(callers), steps);
    PoolIsSafe(callers, steps);
    CountsSubmissions(Initial(callers), steps);
    RunKeepsCallers(Initial(callers), steps);
    if s.waiter < callers { KeepsCall(Initial(callers), steps, s.waiter, 0); }
    NobodyRuns(p.workers);
  }

  lemma {:induction false} NobodyRuns(ws: seq<Worker>)
    ensures RunningCount(ws) == 0 <==> forall w :: 0 <= w < |ws| ==> !ws[w].Running?
  {
    if ws != [] {
      NobodyRuns(ws[1..]);
      assert forall w :: 1 <= w < |ws| ==> ws[w] == ws[1..][w - 1];
    }
  }

  /** Whenever wait returns, every task accepted so far has finished. */
  lemma WaitMeansDone(callers: nat, steps: seq<Step>, s: Step)
    requires AllEnabled(Initial(callers), steps) && Returns(After(Initial(callers), steps), s)
    ensures var p := After(Initial(callers), steps);
            forall t: nat :: t in p.finished <==> t < p.accepted
  {
    PoolIsSafe(callers, steps);
    QuietMeansDone(After(Initial(callers), steps));
  }

  // The count of the last call of setCoreCount, or n.
  function LastTarget(steps: seq<Step>, n: nat): nat {
    if steps == [] then n else LastTarget(steps[1..], if steps[0].SetTarget? then steps[0].count else n)
  }

  // Between calls of setCoreCount there are as many workers as asked for, and only surplus ones have returned.
  ghost predicate Staffed(p: Pool) {
    && (p.boss.Idle? ==> |p.workers| == p.threadCount)
    && forall w :: 0 <= w < |p.workers| && p.workers[w].Exited? ==> w >= p.threadCount
  }

  lemma StepKeepsStaff(p: Pool, s: Step)
    requires Enabled(p, s) && Staffed(p)
    ensures Staffed(Do(p, s))
  {}

  lemma {:induction false} RunKeepsTarget(p: Pool, steps: seq<Step>)
    requires AllEnabled(p, steps) && Staffed(p)
    ensures var q := After(p, steps); q.threadCount == LastTarget(steps, p.threadCount) && Staffed(q)
    decreases |steps|
  {
    if steps != [] {
      StepKeepsStaff(p, steps[0]);
      RunKeepsTarget(Do(p, steps[0]), steps[1..]);
    }
  }

  /** When setCoreCount(n) has returned, there are n workers and all of them are alive; and no run
      ever loses one of the workers that the last call asked for. */
  lemma CoreCount(callers: nat, steps: seq<Step>)
    requires AllEnabled(Initial(callers), steps)
    ensures var p, n := After(Initial(callers), steps), LastTarget(steps, 0);
            && (p.boss.Idle? ==> |p.workers| == n)
            && forall w :: 0 <= w < n && w < |p.workers| ==> Alive(p, w)
  {
    RunKeepsTarget(Initial(callers), steps);
  }

  // The steps lead from one state to another.
  ghost predicate Leads(p: Pool, steps: seq<Step>, q: Pool) {
    AllEnabled(p, steps) && After(p, steps) == q
  }

  lemma LeadsOne(p: Pool, s: Step, q: Pool, rest: seq<Step>, r: Pool)
    requires Enabled(p, s) && Do(p, s) == q && Leads(q, rest, r)
    ensures Leads(p, [s] + rest, r)
  {
    assert ([s] + rest)[1..] == rest;
  }

  lemma {:induction false} LeadsThen(p: Pool, a: seq<Step>, q: Pool, b: seq<Step>, r: Pool)
    requires Leads(p, a, q) && Leads(q, b, r)
    ensures Leads(p, a + b, r)
    decreases |a|
  {
    if a == [] {
      assert a + b == b;
    } else {
      assert a == [a[0]] + a[1..] && a + b == [a[0]] + (a[1..] + b);
      LeadsThen(Do(p, a[0]), a[1..], q, b, r);
      LeadsOne(p, a[0], Do(p, a[0]), a[1..] + b, r);
    }
  }

  // One worker and no task yet; two of the callers do something, the rest are away.
  function OneWorker(a: Waiter, b: Waiter, rest: seq<Waiter>): Pool {
    Pool([], 0, 0, {}, 0, 0, 1, [Ready], 0, Idle, [a, b] + rest)
  }

  lemma SetWaiter(a: Waiter, b: Waiter, rest: seq<Waiter>, x: Waiter)
    ensures ([a, b] + rest)[0 := x] == [x, b] + rest
    ensures ([a, b] + rest)[1 := x] == [a, x] + rest
  {}

  // Two callers fall asleep, the second one waiting for less than the first.
  lemma TwoCallersSleep(p0: Pool, rest: seq<Waiter>) returns (steps: seq<Step>)
    requires p0 == Pool([], 0, 0, {}, 0, 0, 0, [], 0, Idle, [Away, Away] + rest)
    ensures Leads(p0, steps, OneWorker(Waiting(2), Waiting(1), rest))
  {
    var z := OneWorker(Waiting(2), Waiting(1), rest);
    var p1 := p0.(threadCount := 1, boss := Resizing);
    var p2 := p1.(workers := [Ready]);
    SetWaiter(Away, Away, rest, Waiting(2));
    SetWaiter(Waiting(2), Away, rest, Waiting(1));
    LeadsOne(OneWorker(Waiting(2), Away, rest), BeginWait(1, 1), z, [], z);
    steps := [BeginWait(1, 1)] + [];
    LeadsOne(OneWorker(Away, Away, rest), BeginWait(0, 2), OneWorker(Waiting(2), Away, rest), steps, z);
    steps := [BeginWait(0, 2)] + steps;
    LeadsOne(p2, Resized, OneWorker(Away, Away, rest), steps, z);
    steps := [Resized] + steps;
    LeadsOne(p1, Spawn, p2, steps, z);
    steps := [Spawn] + steps;
    LeadsOne(p0, SetTarget(1), p1, steps, z);
    steps := [SetTarget(1)] + steps;
  }

  // The worker has taken the one task submitted since.
  function OneRuns(rest: seq<Waiter>): Pool {
    Pool([], 1, 1, {}, 1, 1, 1, [Running(0)], 0, Idle, [Waiting(2), Waiting(1)] + rest)
  }

  lemma TheTaskStarts(rest: seq<Waiter>) returns (steps: seq<Step>)
    ensures Leads(OneWorker(Waiting(2), Waiting(1), rest), steps, OneRuns(rest))
  {
    var z := OneRuns(rest);
    var p6 := OneWorker(Waiting(2), Waiting(1), rest).(queue := [0], accepted := 1, taskCount := 1,
        pendingNotifies := 1);
    var p7 := z.(pendingNotifies := 1);
    LeadsOne(p7, NotifyOne(None), z, [], z);
    steps := [NotifyOne(None)] + [];
    LeadsOne(p6, Top(0), p7, steps, z);
    steps := [Top(0)] + steps;
    LeadsOne(OneWorker(Waiting(2), Waiting(1), rest), Submit(Outside), p6, steps, z);
    steps := [Submit(Outside)] + steps;
  }

  // The one task has finished.
  function OneDone(first: Waiter, rest: seq<Waiter>): Pool {
    Pool([], 1, 1, {0}, 0, 1, 1, [Ready], 0, Idle, [first, Waiting(1)] + rest)
  }

  lemma TheWrongCallerWakes(rest: seq<Waiter>)
    ensures Enabled(OneRuns(rest), Finish(0, Some(0)))
    ensures Do(OneRuns(rest), Finish(0, Some(0))) == OneDone(Notified(2), rest)
  {
    assert {} + {0} == {0};
    SetWaiter(Waiting(2), Waiting(1), rest, Notified(2));
  }

  lemma TheWrongCallerSleeps(rest: seq<Waiter>)
    ensures Enabled(OneDone(Notified(2), rest), RecheckWait(0))
    ensures Do(OneDone(Notified(2), rest), RecheckWait(0)) == OneDone(Waiting(2), rest)
  {
    SetWaiter(Notified(2), Waiting(1), rest, Waiting(2));
  }

  /** A caller of wait sleeps although its condition holds, and nobody has been notified. */
  ghost predicate Missed(p: Pool, k: nat) {
    && k < |p.waiters| && p.waiters[k].Waiting? && WaitCondition(p, p.waiters[k].count)
    && forall j :: 0 <= j < |p.waiters| ==> !p.waiters[j].Notified?
  }

  // The single notify_one goes to the caller whose count is not reached, which sleeps again.
  lemma SecondCallerIsMissed(callers: nat) returns (steps: seq<Step>)
    requires callers >= 2
    ensures AllEnabled(Initial(callers), steps) && Missed(After(Initial(callers), steps), 1)
  {
    var rest := seq(callers - 2, i => Away);
    assert Initial(callers).waiters == [Away, Away] + rest;
    var z := OneDone(Waiting(2), rest);
    var a := TwoCallersSleep(Initial(callers), rest);
    var b := TheTaskStarts(rest);
    TheWrongCallerWakes(rest);
    TheWrongCallerSleeps(rest);
    LeadsOne(OneDone(Notified(2), rest), RecheckWait(0), z, [], z);
    var c := [Finish(0, Some(0))] + ([RecheckWait(0)] + []);
    LeadsOne(OneRuns(rest), Finish(0, Some(0)), OneDone(Notified(2), rest), [RecheckWait(0)] + [], z);
    LeadsThen(OneWorker(Waiting(2), Waiting(1), rest), b, OneRuns(rest), c, z);
    LeadsThen(Initial(callers), a, OneWorker(Waiting(2), Waiting(1), rest), b + c, z);
    steps := a + (b + c);
  }

  ghost predicate CanBeMissed(callers: nat) {
    exists steps, k: nat :: AllEnabled(Initial(callers), steps) && Missed(After(Initial(callers), steps), k)
  }

  /** A caller of wait can be missed exactly when there are at least two of them. */
  lemma MissedExactlyWithTwo(callers: nat)
    ensures CanBeMissed(callers) <==> callers >= 2
  {
    if callers >= 2 {
      var steps := SecondCallerIsMissed(callers);
    } else if steps, k: nat :| AllEnabled(Initial(callers), steps) && Missed(After(Initial(callers), steps), k) {
      RunKeepsCallers(Initial(callers), steps);
      if callers == 1 { WaiterIsNotified(steps); }
    }
  }

  lemma {:induction false} RunKeepsCallers(p: Pool, steps: seq<Step>)
    requires AllEnabled(p, steps)
    ensures |After(p, steps).waiters| == |p.waiters|
    decreases |steps|
  {
    if steps != [] { RunKeepsCallers(Do(p, steps[0]), steps[1..]); }
  }

  /** A missed caller sleeps on, whatever happens, until a task is submitted or it wakes up
      spuriously. */
  lemma MissedSleepsOn(p: Pool, k: nat, steps: seq<Step>)
    requires ExactlyOnce(p) && Missed(p, k) && AllEnabled(p, steps)
    requires forall i :: 0 <= i < |steps| ==> !steps[i].Submit? && steps[i] != SpuriousWait(k)
    ensures var q := After(p, steps); k < |q.waiters| && q.waiters[k] == p.waiters[k]
  {
    forall w | 0 <= w < |p.workers|
      ensures !p.workers[w].Running?
    {
      CountOfUpdate(p.workers, w, Ready);
    }
    QuietSleepsOn(p, k, p.waiters[k], steps);
  }

  // Nothing queued, nothing running, and caller k asleep.
  ghost predicate QuietAsleep(p: Pool, k: nat, x: Waiter) {
    && p.queue == [] && (forall w :: 0 <= w < |p.workers| ==> !p.workers[w].Running?)
    && k < |p.waiters| && p.waiters[k] == x && x.Waiting?
  }

  lemma StepKeepsQuiet(p: Pool, k: nat, x: Waiter, s: Step)
    requires QuietAsleep(p, k, x) && Enabled(p, s) && !s.Submit? && s != SpuriousWait(k)
    ensures QuietAsleep(Do(p, s), k, x)
  {}

  lemma {:induction false} QuietSleepsOn(p: Pool, k: nat, x: Waiter, steps: seq<Step>)
    requires QuietAsleep(p, k, x) && AllEnabled(p, steps)
    requires forall i :: 0 <= i < |steps| ==> !steps[i].Submit? && steps[i] != SpuriousWait(k)
    ensures QuietAsleep(After(p, steps), k, x)
    decreases |steps|
  {
    if steps != [] {
      assert !steps[0].Submit? && steps[0] != SpuriousWait(k);
      StepKeepsQuiet(p, k, x, steps[0]);
      QuietSleepsOn(Do(p, steps[0]), k, x, steps[1..]);
    }
  }

  // ---------------------------------------------------------------- shutting down

  /** Outside threads submit only while no setCoreCount is running and the pool has threads;
      running tasks may submit at any time. */
  predicate Orderly(p: Pool, steps: seq<Step>)
    requires AllEnabled(p, steps)
    decreases |steps|
  {
    steps == [] ||
    ((steps[0] == Submit(Outside) ==> p.boss.Idle? && p.threadCount > 0) && Orderly(Do(p, steps[0]), steps[1..]))
  }

  ghost predicate Attended(p: Pool) {
    p.queue != [] ==> exists w: nat :: Alive(p, w)
  }

  lemma StepKeepsAttended(p: Pool, s: Step)
    requires Attended(p) && NoLostShutdown(p) && Enabled(p, s)
    requires s == Submit(Outside) ==> p.boss.Idle? && p.threadCount > 0
    ensures Attended(Do(p, s))
  {
    var q := Do(p, s);
    if q.queue != [] {
      match s
      case Submit(c) =>
        assert Alive(q, if c.Task? then c.worker else 0);
      case Top(w) => assert Alive(q, w);
      case Recheck(w) => assert Alive(q, w);
      case Finish(w, _) => assert Alive(q, w);
      case _ =>
        var w: nat :| Alive(p, w);
        assert Alive(q, w);
    }
  }

  lemma {:induction false} RunKeepsAttended(p: Pool, steps: seq<Step>)
    requires Attended(p) && Safe(p) && AllEnabled(p, steps) && Orderly(p, steps)
    ensures Attended(After(p, steps))
    decreases |steps|
  {
    if steps != [] {
      StepKeepsAttended(p, steps[0]);
      RunIsSafe(p, [steps[0]]);
      assert [steps[0]][1..] == [];
      assert After(Do(p, steps[0]), []) == Do(p, steps[0]);
      RunKeepsAttended(Do(p, steps[0]), steps[1..]);
    }
  }

  /** Once setCoreCount(0) has joined every worker of an orderly run, the queue is drained and
      every accepted task has finished. */
  lemma ShutdownDrains(callers: nat, steps: seq<Step>)
    requires AllEnabled(Initial(callers), steps) && Orderly(Initial(callers), steps)
    requires After(Initial(callers), steps).workers == []
    ensures var p := After(Initial(callers), steps);
            p.queue == [] && forall t: nat :: t in p.finished <==> t < p.accepted
  {
    var p := After(Initial(callers), steps);
    PoolIsSafe(callers, steps);
    RunKeepsAttended(Initial(callers), steps);
    QuietMeansDone(p);
  }

  /** A task submitted when no worker is alive stays queued until threads are added again. */
  lemma Unattended(p: Pool, s: Step)
    requires p.queue != [] && (forall w: nat :: !Alive(p, w)) && Enabled(p, s) && !s.Spawn?
    ensures Do(p, s).queue != [] && forall w: nat :: !Alive(Do(p, s), w)
  {
    var q := Do(p, s);
    match s {
      case Submit(c) => if c.Task? { assert Alive(p, c.worker); }
      case Top(w) => assert Alive(p, w);
      case Recheck(w) => assert Alive(p, w);
      case Finish(w, _) => assert Alive(p, w);
      case _ =>
    }
    forall w: nat
      ensures !Alive(q, w)
    {
      assert !Alive(p, w);
    }
  }
}
