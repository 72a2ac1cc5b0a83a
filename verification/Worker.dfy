/**
 The worker threads and their task queues, as a system of atomic steps.

 Any number of producers call `Do`: one step looks at the length of the queue without a lock, a later
 one pushes under the lock. Each worker's loop tests its flag, waits until its queue is not empty,
 claims the front under the lock and runs it. Steps of different threads interleave in any order;
 reads and writes of the flag and of the queue length are taken to be atomic.
 */
module Workers {
  import opened Numbers

  /** What a queue holds: work on one series, or the empty task `Stop` uses to wake a worker. */
  datatype Task = OnSeries(keyint: nat, id: nat) | WakeUp(worker: nat)

  datatype Phase = Testing | Waiting | Claiming | Running(task: Task) | Dead

  datatype Worker = Worker(queue: seq<Task>, keepProcessing: bool, phase: Phase)

  /** A caller of `Do`: outside it, or past the check and not yet at the lock. */
  datatype Producer = Idle | Admitted(task: Task)

  /** `pushed` and `started` record the order in which tasks were queued and claimed, on all workers. */
  datatype System = System(workers: seq<Worker>, producers: seq<Producer>, pushed: seq<Task>, started: seq<Task>)

  datatype Step =
    | Check(p: nat, task: Task) | Push(p: nat)
    | LoopTest(w: nat) | Wake(w: nat) | Claim(w: nat) | Finish(w: nat) | ClearFlag(w: nat)

  /** `GetWorker`: a fixed function of the series. */
  function Route(task: Task, n: Pos): nat {
    match task
    case OnSeries(keyint, _) => keyint % n
    case WakeUp(worker) => worker
  }

  predicate RouteOk(task: Task, n: nat) {
    n >= 1 && Route(task, n) < n
  }

  /** When a step can be taken. `Check` finds room in the queue; a full queue sends the caller away unchanged. */
  predicate Enabled(s: System, step: Step, limit: int) {
    var n := |s.workers|;
    match step
    case Check(p, task) =>
      p < |s.producers| && s.producers[p].Idle? && RouteOk(task, n) && |s.workers[Route(task, n)].queue| < limit
    case Push(p) => p < |s.producers| && s.producers[p].Admitted? && RouteOk(s.producers[p].task, n)
    case LoopTest(w) => w < n && s.workers[w].phase.Testing?
    case Wake(w) => w < n && s.workers[w].phase.Waiting? && s.workers[w].queue != []
    case Claim(w) => w < n && s.workers[w].phase.Claiming?
    case Finish(w) => w < n && s.workers[w].phase.Running?
    case ClearFlag(w) => w < n
  }

  /** The state after a step. Claiming from an empty queue would be an error: it leaves a dead worker. */
  function Apply(s: System, step: Step, limit: int): System
    requires Enabled(s, step, limit)
  {
    match step
    case Check(p, task) => s.(producers := s.producers[p := Admitted(task)])
    case Push(p) =>
      var task := s.producers[p].task;
      var w := Route(task, |s.workers|);
      s.(producers := s.producers[p := Idle],
         workers := s.workers[w := s.workers[w].(queue := s.workers[w].queue + [task])],
         pushed := s.pushed + [task])
    case LoopTest(w) =>
      s.(workers := s.workers[w := s.workers[w].(phase := if s.workers[w].keepProcessing then Waiting else Dead)])
    case Wake(w) => s.(workers := s.workers[w := s.workers[w].(phase := Claiming)])
    case Claim(w) =>
      if s.workers[w].queue == [] then s.(workers := s.workers[w := s.workers[w].(phase := Dead)])
      else
        var task := s.workers[w].queue[0];
        s.(workers := s.workers[w := s.workers[w].(queue := s.workers[w].queue[1..], phase := Running(task))],
           started := s.started + [task])
    case Finish(w) => s.(workers := s.workers[w := s.workers[w].(phase := Testing)])
    case ClearFlag(w) => s.(workers := s.workers[w := s.workers[w].(keepProcessing := false)])
  }

  function Initial(n: nat, p: nat): System {
    System(seq(n, _ => Worker([], true, Testing)), seq(p, _ => Idle), [], [])
  }

  ghost predicate Runs(s: System, steps: seq<Step>, limit: int)
    decreases |steps|
  {
    steps == [] || (Enabled(s, steps[0], limit) && Runs(Apply(s, steps[0], limit), steps[1..], limit))
  }

  ghost function After(s: System, steps: seq<Step>, limit: int): System
    requires Runs(s, steps, limit)
    decreases |steps|
  {
    if steps == [] then s else After(Apply(s, steps[0], limit), steps[1..], limit)
  }

  // ---- What every step keeps ----

  function Only(tasks: seq<Task>, w: nat, n: Pos): seq<Task> {
    if tasks == [] then []
    else Only(tasks[..|tasks| - 1], w, n) + if Route(tasks[|tasks| - 1], n) == w then [tasks[|tasks| - 1]] else []
  }

  function AdmittedTo(producers: seq<Producer>, w: nat, n: Pos): (k: nat)
    ensures k <= |producers|
  {
    if producers == [] then 0
    else
      (if producers[0].Admitted? && Route(producers[0].task, n) == w then 1 else 0) + AdmittedTo(producers[1..], w, n)
  }

  /** A worker's queue is what was pushed to it and not yet started, in order. */
  ghost predicate InStep(s: System) {
    && |s.workers| >= 1
    && (forall w :: 0 <= w < |s.workers| ==>
        Only(s.pushed, w, |s.workers|) == Only(s.started, w, |s.workers|) + s.workers[w].queue)
  }

  ghost predicate ClaimsFind(s: System) {
    forall w :: 0 <= w < |s.workers| && s.workers[w].phase.Claiming? ==> s.workers[w].queue != []
  }

  ghost predicate RunsOwn(s: System) {
    |s.workers| >= 1 &&
    forall w :: 0 <= w < |s.workers| && s.workers[w].phase.Running? ==> Route(s.workers[w].phase.task, |s.workers|) == w
  }

  /** The limit is checked without the lock: every producer may slip in one task more. */
  ghost predicate Bounded(s: System, limit: int) {
    |s.workers| >= 1 &&
    forall w :: 0 <= w < |s.workers| ==>
      |s.workers[w].queue| + AdmittedTo(s.producers, w, |s.workers|) <= (if limit >= 1 then limit - 1 + |s.producers| else 0)
  }

  ghost predicate Invariant(s: System, limit: int) {
    InStep(s) && ClaimsFind(s) && RunsOwn(s) && Bounded(s, limit)
  }

  lemma {:induction false} OnlySnoc(tasks: seq<Task>, task: Task, w: nat, n: Pos)
    ensures Only(tasks + [task], w, n) == Only(tasks, w, n) + if Route(task, n) == w then [task] else []
  {
    assert (tasks + [task])[..|tasks|] == tasks;
  }

  lemma {:induction false} OnlyRoutes(tasks: seq<Task>, w: nat, n: Pos)
    ensures forall t :: t in Only(tasks, w, n) ==> t in tasks && Route(t, n) == w
  {
    if tasks != [] {
      OnlyRoutes(tasks[..|tasks| - 1], w, n);
    }
  }

  lemma {:induction false} AdmittedUpdate(producers: seq<Producer>, p: nat, to: Producer, w: nat, n: Pos)
    requires p < |producers|
    ensures AdmittedTo(producers[p := to], w, n) ==
      AdmittedTo(producers, w, n)
      - (if producers[p].Admitted? && Route(producers[p].task, n) == w then 1 else 0)
      + (if to.Admitted? && Route(to.task, n) == w then 1 else 0)
  {
    if p > 0 {
      AdmittedUpdate(producers[1..], p - 1, to, w, n);
      assert producers[p := to][1..] == producers[1..][p - 1 := to];
    } else {
      assert producers[0 := to][1..] == producers[1..];
    }
  }

  lemma {:induction false} InStepKept(s: System, step: Step, limit: int)
    requires InStep(s) && ClaimsFind(s) && Enabled(s, step, limit)
    ensures InStep(Apply(s, step, limit))
  {
    var n, s' := |s.workers|, Apply(s, step, limit);
    forall w | 0 <= w < n
      ensures Only(s'.pushed, w, n) == Only(s'.started, w, n) + s'.workers[w].queue
    {
      match step
      case Push(p) =>
        var task := s.producers[p].task;
        OnlySnoc(s.pushed, task, w, n);
        assert Only(s.pushed, w, n) == Only(s.started, w, n) + s.workers[w].queue;
        assert (Only(s.started, w, n) + s.workers[w].queue) + [task] == Only(s.started, w, n) + (s.workers[w].queue + [task]);
      case Claim(v) =>
        var q := s.workers[v].queue;
        OnlySnoc(s.started, q[0], w, n);
        QueueRoutes(s, v);
        assert Only(s.pushed, w, n) == Only(s.started, w, n) + s.workers[w].queue;
        assert q == [q[0]] + q[1..];
        assert (Only(s.started, w, n) + [q[0]]) + q[1..] == Only(s.started, w, n) + ([q[0]] + q[1..]);
        assert Only(s.started, w, n) + [] == Only(s.started, w, n);
      case _ =>
        assert Only(s.pushed, w, n) == Only(s.started, w, n) + s.workers[w].queue;
    }
  }

  lemma {:induction false} QueueRoutes(s: System, w: nat)
    requires InStep(s) && w < |s.workers| && s.workers[w].queue != []
    ensures Route(s.workers[w].queue[0], |s.workers|) == w
  {
    var n := |s.workers|;
    OnlyRoutes(s.pushed, w, n);
    assert Only(s.pushed, w, n) == Only(s.started, w, n) + s.workers[w].queue;
    assert Only(s.pushed, w, n)[|Only(s.started, w, n)|] == s.workers[w].queue[0];
  }

  /** Between waking up and claiming the queue can only grow. */
  lemma {:induction false} ClaimsKept(s: System, step: Step, limit: int)
    requires ClaimsFind(s) && Enabled(s, step, limit)
    ensures ClaimsFind(Apply(s, step, limit))
  {
  }

  lemma {:induction false} OwnKept(s: System, step: Step, limit: int)
    requires InStep(s) && ClaimsFind(s) && RunsOwn(s) && Enabled(s, step, limit)
    ensures RunsOwn(Apply(s, step, limit))
  {
    if step.Claim? {
      QueueRoutes(s, step.w);
    }
  }

  lemma {:induction false} BoundKept(s: System, step: Step, limit: int)
    requires Bounded(s, limit) && Enabled(s, step, limit)
    ensures Bounded(Apply(s, step, limit), limit)
  {
    var n, s' := |s.workers|, Apply(s, step, limit);
    forall w | 0 <= w < n
      ensures |s'.workers[w].queue| + AdmittedTo(s'.producers, w, n) <= (if limit >= 1 then limit - 1 + |s'.producers| else 0)
    {
      match step
      case Check(p, task) => AdmittedUpdate(s.producers, p, Admitted(task), w, n);
      case Push(p) => AdmittedUpdate(s.producers, p, Idle, w, n);
      case _ =>
    }
  }

  lemma {:induction false} InvariantInitially(n: Pos, p: nat, limit: int)
    ensures Invariant(Initial(n, p), limit)
  {
    var s := Initial(n, p);
    forall w | 0 <= w < n ensures AdmittedTo(s.producers, w, n) == 0 {
      NoneAdmitted(s.producers, w, n);
    }
  }

  lemma {:induction false} NoneAdmitted(producers: seq<Producer>, w: nat, n: Pos)
    requires forall i :: 0 <= i < |producers| ==> producers[i].Idle?
    ensures AdmittedTo(producers, w, n) == 0
  {
    if producers != [] {
      NoneAdmitted(producers[1..], w, n);
    }
  }

  /** Whatever the interleaving, every reachable state satisfies the invariant. */
  lemma {:induction false} InvariantOnEveryRun(s: System, steps: seq<Step>, limit: int)
    requires Invariant(s, limit) && Runs(s, steps, limit)
    ensures Invariant(After(s, steps, limit), limit)
    decreases |steps|
  {
    if steps != [] {
      InStepKept(s, steps[0], limit);
      ClaimsKept(s, steps[0], limit);
      OwnKept(s, steps[0], limit);
      BoundKept(s, steps[0], limit);
      InvariantOnEveryRun(Apply(s, steps[0], limit), steps[1..], limit);
    }
  }

  // ---- What follows on every run from the start ----

  function OfSeries(tasks: seq<Task>, keyint: nat): seq<Task> {
    if tasks == [] then []
    else
      var last := tasks[|tasks| - 1];
      OfSeries(tasks[..|tasks| - 1], keyint) + if last.OnSeries? && last.keyint == keyint then [last] else []
  }

  lemma {:induction false} OfSeriesSnoc(tasks: seq<Task>, task: Task, keyint: nat)
    ensures OfSeries(tasks + [task], keyint)
      == OfSeries(tasks, keyint) + if task.OnSeries? && task.keyint == keyint then [task] else []
  {
    assert (tasks + [task])[..|tasks|] == tasks;
  }

  lemma {:induction false} OfSeriesConcat(a: seq<Task>, b: seq<Task>, keyint: nat)
    ensures OfSeries(a + b, keyint) == OfSeries(a, keyint) + OfSeries(b, keyint)
  {
    if b == [] {
      assert a + b == a;
    } else {
      var front, last := b[..|b| - 1], b[|b| - 1];
      OfSeriesConcat(a, front, keyint);
      assert a + b == (a + front) + [last];
      OfSeriesSnoc(a + front, last, keyint);
    }
  }

  /** All tasks of a series are on its worker. */
  lemma {:induction false} OfSeriesOnly(tasks: seq<Task>, keyint: nat, n: Pos)
    ensures OfSeries(Only(tasks, keyint % n, n), keyint) == OfSeries(tasks, keyint)
  {
    if tasks != [] {
      var front, last := tasks[..|tasks| - 1], tasks[|tasks| - 1];
      OfSeriesOnly(front, keyint, n);
      if Route(last, n) == keyint % n {
        OfSeriesSnoc(Only(front, keyint % n, n), last, keyint);
      } else {
        assert Only(front, keyint % n, n) + [] == Only(front, keyint % n, n);
      }
    }
  }

  /** Tasks of one series start in the order they were queued, however many workers there are. */
  lemma {:induction false} SeriesInOrder(n: Pos, p: nat, steps: seq<Step>, limit: int, keyint: nat)
    requires Runs(Initial(n, p), steps, limit)
    ensures var s := After(Initial(n, p), steps, limit);
      OfSeries(s.started, keyint) <= OfSeries(s.pushed, keyint)
  {
    InvariantInitially(n, p, limit);
    InvariantOnEveryRun(Initial(n, p), steps, limit);
    SameSize(Initial(n, p), steps, limit);
    var s := After(Initial(n, p), steps, limit);
    var w := keyint % n;
    OfSeriesOnly(s.pushed, keyint, n);
    OfSeriesOnly(s.started, keyint, n);
    assert Only(s.pushed, w, n) == Only(s.started, w, n) + s.workers[w].queue;
    OfSeriesConcat(Only(s.started, w, n), s.workers[w].queue, keyint);
  }

  lemma {:induction false} SameSize(s: System, steps: seq<Step>, limit: int)
    requires Runs(s, steps, limit)
    ensures |After(s, steps, limit).workers| == |s.workers| && |After(s, steps, limit).producers| == |s.producers|
    decreases |steps|
  {
    if steps != [] {
      SameSize(Apply(s, steps[0], limit), steps[1..], limit);
    }
  }

  lemma {:induction false} OnlyCounts(tasks: seq<Task>, task: Task, n: Pos)
    ensures multiset(Only(tasks, Route(task, n), n))[task] == multiset(tasks)[task]
  {
    if tasks != [] {
      var front, last := tasks[..|tasks| - 1], tasks[|tasks| - 1];
      assert tasks == front + [last];
      OnlyCounts(front, task, n);
    }
  }

  /** No task is started more often than it was queued. */
  lemma {:induction false} StartedAtMostOnce(n: Pos, p: nat, steps: seq<Step>, limit: int, task: Task)
    requires RouteOk(task, n) && Runs(Initial(n, p), steps, limit)
    ensures var s := After(Initial(n, p), steps, limit);
      && |s.workers| == n
      && multiset(s.started)[task] + multiset(s.workers[Route(task, n)].queue)[task] == multiset(s.pushed)[task]
  {
    InvariantInitially(n, p, limit);
    InvariantOnEveryRun(Initial(n, p), steps, limit);
    SameSize(Initial(n, p), steps, limit);
    var s := After(Initial(n, p), steps, limit);
    var w := Route(task, n);
    OnlyCounts(s.pushed, task, n);
    OnlyCounts(s.started, task, n);
    assert Only(s.pushed, w, n) == Only(s.started, w, n) + s.workers[w].queue;
  }

  predicate WorksOn(worker: Worker, keyint: nat) {
    worker.phase.Running? && worker.phase.task.OnSeries? && worker.phase.task.keyint == keyint
  }

  /** Two workers never run tasks of the same series at the same time. */
  lemma {:induction false} SeriesExclusive(n: Pos, p: nat, steps: seq<Step>, limit: int, keyint: nat, v: nat, w: nat)
    requires v < n && w < n && Runs(Initial(n, p), steps, limit)
    ensures var s := After(Initial(n, p), steps, limit);
      && |s.workers| == n
      && (WorksOn(s.workers[v], keyint) && WorksOn(s.workers[w], keyint) ==> v == w)
  {
    InvariantInitially(n, p, limit);
    InvariantOnEveryRun(Initial(n, p), steps, limit);
    SameSize(Initial(n, p), steps, limit);
  }

  /** The claim step always finds a task, and no queue ever holds more than the limit and one task for each other producer. */
  lemma {:induction false} QueueSafe(n: Pos, p: nat, steps: seq<Step>, limit: int, w: nat)
    requires w < n && Runs(Initial(n, p), steps, limit)
    ensures var s := After(Initial(n, p), steps, limit);
      && |s.workers| == n
      && (s.workers[w].phase.Claiming? ==> s.workers[w].queue != [])
      && |s.workers[w].queue| + AdmittedTo(s.producers, w, n) <= if limit >= 1 then limit - 1 + p else 0
  {
    InvariantInitially(n, p, limit);
    InvariantOnEveryRun(Initial(n, p), steps, limit);
    SameSize(Initial(n, p), steps, limit);
  }

  // ---- Stopping ----

  /** Past the test of its flag, a worker will still claim once. */
  function Pending(phase: Phase): nat {
    if phase.Waiting? || phase.Claiming? then 1 else 0
  }

  lemma {:induction false} StoppedStep(s: System, step: Step, limit: int, w: nat)
    requires InStep(s) && ClaimsFind(s) && w < |s.workers| && !s.workers[w].keepProcessing && Enabled(s, step, limit)
    ensures var s', n := Apply(s, step, limit), |s.workers|;
      && !s'.workers[w].keepProcessing
      && |Only(s'.started, w, n)| + Pending(s'.workers[w].phase) <= |Only(s.started, w, n)| + Pending(s.workers[w].phase)
  {
    if step.Claim? {
      QueueRoutes(s, step.w);
      OnlySnoc(s.started, s.workers[step.w].queue[0], w, |s.workers|);
    }
  }

  /** Once its flag is cleared a worker claims at most one task more, and none if it had not yet passed the test. */
  lemma {:induction false} StopLimits(s: System, steps: seq<Step>, limit: int, w: nat)
    requires InStep(s) && ClaimsFind(s) && w < |s.workers| && !s.workers[w].keepProcessing && Runs(s, steps, limit)
    ensures |Only(After(s, steps, limit).started, w, |s.workers|)| <= |Only(s.started, w, |s.workers|)| + Pending(s.workers[w].phase)
    decreases |steps|
  {
    if steps != [] {
      StoppedStep(s, steps[0], limit, w);
      InStepKept(s, steps[0], limit);
      ClaimsKept(s, steps[0], limit);
      StopLimits(Apply(s, steps[0], limit), steps[1..], limit, w);
    }
  }

  // ---- The bound is reached ----

  lemma {:induction false} RunSnoc(s: System, steps: seq<Step>, step: Step, limit: int)
    requires Runs(s, steps, limit) && Enabled(After(s, steps, limit), step, limit)
    ensures Runs(s, steps + [step], limit)
    ensures After(s, steps + [step], limit) == Apply(After(s, steps, limit), step, limit)
    decreases |steps|
  {
    if steps == [] {
      assert (steps + [step])[1..] == [];
    } else {
      RunSnoc(Apply(s, steps[0], limit), steps[1..], step, limit);
      assert (steps + [step])[1..] == steps[1..] + [step];
    }
  }

  /** One worker with `len` queued tasks; the producers from `a` to `b` are past the check. */
  ghost predicate Crowded(s: System, len: int, a: nat, b: nat) {
    && |s.workers| == 1 && |s.workers[0].queue| == len
    && forall i :: 0 <= i < |s.producers| ==> s.producers[i] == if a <= i < b then Admitted(WakeUp(0)) else Idle
  }

  /** One producer by itself fills the queue as far as the limit lets it. */
  lemma {:induction false} Fill(p: Pos, limit: int, k: nat) returns (steps: seq<Step>)
    requires k < limit
    ensures Runs(Initial(1, p), steps, limit) && Crowded(After(Initial(1, p), steps, limit), k, 0, 0)
    ensures |After(Initial(1, p), steps, limit).producers| == p
  {
    if k == 0 {
      steps := [];
    } else {
      steps := Fill(p, limit, k - 1);
      RunSnoc(Initial(1, p), steps, Check(0, WakeUp(0)), limit);
      steps := steps + [Check(0, WakeUp(0))];
      RunSnoc(Initial(1, p), steps, Push(0), limit);
      steps := steps + [Push(0)];
    }
  }

  /** Then producers pass the check one after the other, since none of them has pushed yet. */
  lemma {:induction false} Admit(p: Pos, limit: Pos, k: nat) returns (steps: seq<Step>)
    requires k <= p
    ensures Runs(Initial(1, p), steps, limit) && Crowded(After(Initial(1, p), steps, limit), limit - 1, 0, k)
    ensures |After(Initial(1, p), steps, limit).producers| == p
  {
    if k == 0 {
      steps := Fill(p, limit, limit - 1);
    } else {
      steps := Admit(p, limit, k - 1);
      RunSnoc(Initial(1, p), steps, Check(k - 1, WakeUp(0)), limit);
      steps := steps + [Check(k - 1, WakeUp(0))];
    }
  }

  lemma {:induction false} PushOn(p: Pos, limit: Pos, k: nat) returns (steps: seq<Step>)
    requires k <= p
    ensures Runs(Initial(1, p), steps, limit) && Crowded(After(Initial(1, p), steps, limit), limit - 1 + k, k, p)
    ensures |After(Initial(1, p), steps, limit).producers| == p
  {
    if k == 0 {
      steps := Admit(p, limit, p);
    } else {
      steps := PushOn(p, limit, k - 1);
      RunSnoc(Initial(1, p), steps, Push(k - 1), limit);
      steps := steps + [Push(k - 1)];
    }
  }

  /** The bound of `QueueSafe` is reached: with two producers or more a queue can outgrow its limit. */
  lemma {:induction false} LimitExceeded(p: Pos, limit: Pos) returns (steps: seq<Step>)
    ensures Runs(Initial(1, p), steps, limit)
    ensures var s := After(Initial(1, p), steps, limit); |s.workers| == 1 && |s.workers[0].queue| == limit - 1 + p
  {
    steps := PushOn(p, limit, p);
  }
}
