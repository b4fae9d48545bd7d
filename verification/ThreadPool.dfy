/** The Lab 4 thread pool as a step system: every atomic load, add, channel operation and goroutine start
    of `Submit`, the worker loop and the manager is one step, and steps of different goroutines interleave freely. */
module ThreadPool {
  import opened GoInts

  /** A submitted closure, known by its identity. */
  type Task = nat

  datatype Config = Config(minWorkers: int, maxWorkers: int, queueSize: int, threshold: real)

  /** What `make` demands of the two channel capacities; the task queue is buffered. */
  predicate ValidConfig(cfg: Config) {
    cfg.maxWorkers >= 0 && cfg.queueSize >= 1
  }

  /** Where a worker goroutine stands. */
  datatype WorkerPc =
    | Waiting               // in the select
    | Holding(task: Task)   // dequeued, before activeWorkers + 1
    | Running(task: Task)   // before task() returns
    | Ran(task: Task)       // before activeWorkers - 1
    | Inactive(task: Task)  // before completedTasks + 1
    | Completed             // before queuedTasks - 1
    | Exiting               // returning, before the deferred currentWorkers - 1
    | Exited

  /** Where a goroutine that calls `Submit` stands. */
  datatype CallerPc =
    | Idle
    | Enqueued                     // sent, before queuedTasks + 1
    | Counted                      // in checkAndExpand
    | SawWorkers(current: int)     // loaded currentWorkers
    | Expanding                    // in addWorker, before its own load
    | PastCheck                    // past addWorker's check, before currentWorkers + 1
    | Spawning                     // before the go statement

  datatype ManagerPc =
    | Resting
    | SampledWorkers(current: int)
    | SampledActive(current: int, active: int)
    | Shrinking                    // before currentWorkers - 1
    | Notifying                    // before the send on workerQueue
    | Stopped

  datatype State = State(
    queue: seq<Task>, tokens: nat,
    active: int, current: int, completed: int, queued: int,
    workers: seq<WorkerPc>, callers: seq<CallerPc>, manager: ManagerPc,
    cancelled: bool, closed: bool,
    // history: tasks in the order accepted, dequeued, run and completed
    accepted: seq<Task>, taken: seq<Task>, ran: seq<Task>, finished: seq<Task>)

  datatype Step =
    | Enqueue(c: nat, t: Task) | Refuse(c: nat) | CountQueued(c: nat) | LoadWorkers(c: nat) | LoadQueue(c: nat)
    | CheckLimit(c: nat) | CountWorker(c: nat) | Spawn(c: nat)
    | Dequeue(w: nat) | MarkActive(w: nat) | RunTask(w: nat) | ClearActive(w: nat) | MarkCompleted(w: nat)
    | Uncount(w: nat) | Timeout(w: nat) | Leave(w: nat) | Exit(w: nat)
    | SampleWorkers | SampleActive | SampleQueue | Shrink | Notify
    | Cancel | Close | StopManager

  predicate IsCallerStep(step: Step) {
    step.Enqueue? || step.Refuse? || step.CountQueued? || step.LoadWorkers? || step.LoadQueue?
    || step.CheckLimit? || step.CountWorker? || step.Spawn?
  }

  predicate IsWorkerStep(step: Step) {
    step.Dequeue? || step.MarkActive? || step.RunTask? || step.ClearActive? || step.MarkCompleted?
    || step.Uncount? || step.Timeout? || step.Leave? || step.Exit?
  }

  /** Can `step` be taken in `s`?  A send on the closed task queue panics in the source and is no step. */
  predicate Enabled(cfg: Config, s: State, step: Step) {
    && (IsCallerStep(step) ==> step.c < |s.callers|)
    && (IsWorkerStep(step) ==> step.w < |s.workers|)
    && match step
       case Enqueue(c, t) => s.callers[c].Idle? && !s.closed && |s.queue| < cfg.queueSize && t !in s.accepted
       case Refuse(c) => s.callers[c].Idle? && !s.closed && (s.cancelled || |s.queue| == cfg.queueSize)
       case CountQueued(c) => s.callers[c].Enqueued?
       case LoadWorkers(c) => s.callers[c].Counted?
       case LoadQueue(c) => s.callers[c].SawWorkers?
       case CheckLimit(c) => s.callers[c].Expanding?
       case CountWorker(c) => s.callers[c].PastCheck?
       case Spawn(c) => s.callers[c].Spawning?
       case Dequeue(w) => s.workers[w].Waiting? && s.queue != []
       case MarkActive(w) => s.workers[w].Holding?
       case RunTask(w) => s.workers[w].Running?
       case ClearActive(w) => s.workers[w].Ran?
       case MarkCompleted(w) => s.workers[w].Inactive?
       case Uncount(w) => s.workers[w].Completed?
       case Timeout(w) => s.workers[w].Waiting?
       case Leave(w) => s.workers[w].Waiting? && (s.cancelled || (s.closed && s.queue == []))
       case Exit(w) => s.workers[w].Exiting?
       case SampleWorkers => s.manager.Resting?
       case SampleActive => s.manager.SampledWorkers?
       case SampleQueue => s.manager.SampledActive?
       case Shrink => s.manager.Shrinking?
       case Notify => s.manager.Notifying? && s.tokens < cfg.maxWorkers
       case Cancel => true
       case Close => s.cancelled && !s.closed
       case StopManager => s.manager.Resting? && s.cancelled
  }

  /** Is the queue full enough for `checkAndExpand` to try to add a worker? */
  predicate Crowded(cfg: Config, queued: int)
    requires ValidConfig(cfg)
  {
    queued as real / cfg.queueSize as real > cfg.threshold
  }

  function Apply(cfg: Config, s: State, step: Step): State
    requires ValidConfig(cfg) && Enabled(cfg, s, step)
  {
    match step
    case Enqueue(c, t) => s.(queue := s.queue + [t], accepted := s.accepted + [t], callers := s.callers[c := Enqueued])
    case Refuse(c) => s
    case CountQueued(c) => s.(queued := s.queued + 1, callers := s.callers[c := Counted])
    case LoadWorkers(c) => s.(callers := s.callers[c := SawWorkers(s.current)])
    case LoadQueue(c) =>
      var go := s.callers[c].current < cfg.maxWorkers && Crowded(cfg, s.queued);
      s.(callers := s.callers[c := if go then Expanding else Idle])
    case CheckLimit(c) => s.(callers := s.callers[c := if s.current >= cfg.maxWorkers then Idle else PastCheck])
    case CountWorker(c) => s.(current := s.current + 1, callers := s.callers[c := Spawning])
    case Spawn(c) => s.(workers := s.workers + [Waiting], callers := s.callers[c := Idle])
    case Dequeue(w) =>
      var t := s.queue[0];
      s.(queue := s.queue[1..], taken := s.taken + [t], workers := s.workers[w := Holding(t)])
    case MarkActive(w) => s.(active := s.active + 1, workers := s.workers[w := Running(s.workers[w].task)])
    case RunTask(w) =>
      var t := s.workers[w].task;
      s.(ran := s.ran + [t], workers := s.workers[w := Ran(t)])
    case ClearActive(w) => s.(active := s.active - 1, workers := s.workers[w := Inactive(s.workers[w].task)])
    case MarkCompleted(w) =>
      s.(completed := s.completed + 1, finished := s.finished + [s.workers[w].task],
         workers := s.workers[w := Completed])
    case Uncount(w) => s.(queued := s.queued - 1, workers := s.workers[w := Waiting])
    case Timeout(w) => if s.current > cfg.minWorkers then s.(workers := s.workers[w := Exiting]) else s
    case Leave(w) => s.(workers := s.workers[w := Exiting])
    case Exit(w) => s.(current := s.current - 1, workers := s.workers[w := Exited])
    case SampleWorkers => s.(manager := SampledWorkers(s.current))
    case SampleActive => s.(manager := SampledActive(s.manager.current, s.active))
    case SampleQueue =>
      var m := s.manager;
      var go := m.current > cfg.minWorkers && m.active < TruncDiv(m.current, 2) && s.queued == 0;
      s.(manager := if go then Shrinking else Resting)
    case Shrink => s.(current := s.current - 1, manager := Notifying)
    case Notify => s.(tokens := s.tokens + 1, manager := Resting)
    case Cancel => s.(cancelled := true)
    case Close => s.(closed := true)
    case StopManager => s.(manager := Stopped)
  }

  // ---------- runs ----------

  function InitialWorkers(cfg: Config): nat
    requires ValidConfig(cfg)
  {
    if cfg.minWorkers < 0 then 0 else if cfg.minWorkers < cfg.maxWorkers then cfg.minWorkers else cfg.maxWorkers
  }

  /** The loop of `Start`: as many calls of `addWorker` as the minimum asks for, each adding a worker only below
      the maximum. */
  method StartWorkers(cfg: Config) returns (workers: seq<WorkerPc>, current: int)
    requires ValidConfig(cfg)
    ensures workers == Initial(cfg, 0).workers && current == Initial(cfg, 0).current
    ensures current == |workers| && current <= cfg.maxWorkers
    ensures cfg.minWorkers >= 0 ==> current == cfg.minWorkers || current == cfg.maxWorkers < cfg.minWorkers
    ensures cfg.minWorkers < 0 ==> current == 0
  {
    workers, current := [], 0;
    var i := 0;
    while i < cfg.minWorkers
      invariant 0 <= i && (i <= cfg.minWorkers || i == 0)
      invariant current == |workers| == if i <= cfg.maxWorkers then i else cfg.maxWorkers
      invariant forall w :: 0 <= w < |workers| ==> workers[w] == Waiting
    {
      if current < cfg.maxWorkers {
        current := current + 1;
        workers := workers + [Waiting];
      }
      i := i + 1;
    }
  }

  /** `Start` has returned and `k` goroutines are about to call `Submit`. */
  function Initial(cfg: Config, k: nat): State
    requires ValidConfig(cfg)
  {
    var n := InitialWorkers(cfg);
    State([], 0, 0, n, 0, 0, seq(n, _ => Waiting), seq(k, _ => Idle), Resting, false, false, [], [], [], [])
  }

  ghost predicate Reaches(cfg: Config, k: nat, steps: seq<Step>, s: State)
    requires ValidConfig(cfg)
    decreases |steps|
  {
    if steps == [] then s == Initial(cfg, k)
    else
      var n := |steps| - 1;
      exists p :: Reaches(cfg, k, steps[..n], p) && Enabled(cfg, p, steps[n]) && s == Apply(cfg, p, steps[n])
  }

  ghost predicate Reachable(cfg: Config, k: nat, s: State)
    requires ValidConfig(cfg)
  {
    exists steps :: Reaches(cfg, k, steps, s)
  }

  // ---------- counting goroutines by where they stand ----------

  datatype Role = Live | Active | Uncleared | Holder(t: Task) | Runner(t: Task)

  predicate Plays(pc: WorkerPc, role: Role) {
    match role
    case Live => !pc.Exited?
    case Active => pc.Running? || pc.Ran?
    case Uncleared => pc.Holding? || pc.Running? || pc.Ran? || pc.Inactive? || pc.Completed?
    case Holder(t) => (pc.Holding? || pc.Running? || pc.Ran? || pc.Inactive?) && pc.task == t
    case Runner(t) => (pc.Ran? || pc.Inactive?) && pc.task == t
  }

  /** How often `t` occurs in `q`. */
  function Count(q: seq<Task>, t: Task): int { multiset(q)[t] }

  function One(b: bool): nat { if b then 1 else 0 }

  /** How many workers play `role`. */
  function Workers(ws: seq<WorkerPc>, role: Role): nat {
    if ws == [] then 0 else Workers(ws[..|ws| - 1], role) + One(Plays(ws[|ws| - 1], role))
  }

  /** How many callers stand at `pc`. */
  function Callers(cs: seq<CallerPc>, pc: CallerPc): nat {
    if cs == [] then 0 else Callers(cs[..|cs| - 1], pc) + One(cs[|cs| - 1] == pc)
  }

  lemma {:induction false} WorkersUpdate(ws: seq<WorkerPc>, w: nat, pc: WorkerPc, role: Role)
    requires w < |ws|
    ensures Workers(ws[w := pc], role) == Workers(ws, role) - One(Plays(ws[w], role)) + One(Plays(pc, role))
  {
    var n := |ws| - 1;
    if w == n {
      assert ws[w := pc][..n] == ws[..n];
    } else {
      assert ws[w := pc][..n] == ws[..n][w := pc];
      WorkersUpdate(ws[..n], w, pc, role);
    }
  }

  lemma {:induction false} CallersUpdate(cs: seq<CallerPc>, c: nat, pc: CallerPc, at: CallerPc)
    requires c < |cs|
    ensures Callers(cs[c := pc], at) == Callers(cs, at) - One(cs[c] == at) + One(pc == at)
  {
    var n := |cs| - 1;
    if c == n {
      assert cs[c := pc][..n] == cs[..n];
    } else {
      assert cs[c := pc][..n] == cs[..n][c := pc];
      CallersUpdate(cs[..n], c, pc, at);
    }
  }

  lemma {:induction false} CallersBound(cs: seq<CallerPc>, c: nat, at: CallerPc)
    requires c < |cs| && cs[c] != at
    ensures Callers(cs, at) <= |cs| - 1
  {
    var n := |cs| - 1;
    if c < n {
      CallersBound(cs[..n], c, at);
    } else {
      CallersAtMost(cs[..n], at);
    }
  }

  lemma {:induction false} CallersAtMost(cs: seq<CallerPc>, at: CallerPc)
    ensures Callers(cs, at) <= |cs|
  {
    if cs != [] {
      CallersAtMost(cs[..|cs| - 1], at);
    }
  }

  lemma WorkerStepMoves(cfg: Config, s: State, step: Step)
    requires ValidConfig(cfg) && Enabled(cfg, s, step)
    ensures var s' := Apply(cfg, s, step);
      s'.workers == if IsWorkerStep(step) then s.workers[step.w := s'.workers[step.w]]
                    else if step.Spawn? then s.workers + [Waiting] else s.workers
  {
  }

  /** How a step changes the number of workers in a role: only its own worker moves, or one is born. */
  function WorkersDelta(ws: seq<WorkerPc>, ws': seq<WorkerPc>, step: Step, role: Role): int
    requires IsWorkerStep(step) ==> step.w < |ws| && step.w < |ws'|
  {
    if IsWorkerStep(step) then One(Plays(ws'[step.w], role)) as int - One(Plays(ws[step.w], role))
    else if step.Spawn? then One(Plays(Waiting, role)) else 0
  }

  lemma StepWorkers(cfg: Config, s: State, step: Step, role: Role)
    requires ValidConfig(cfg) && Enabled(cfg, s, step)
    ensures var s' := Apply(cfg, s, step);
      && (IsWorkerStep(step) ==> step.w < |s'.workers|)
      && Workers(s'.workers, role) == Workers(s.workers, role) + WorkersDelta(s.workers, s'.workers, step, role)
  {
    WorkerStepMoves(cfg, s, step);
    MovedWorkers(s.workers, Apply(cfg, s, step).workers, step, role);
  }

  lemma MovedWorkers(ws: seq<WorkerPc>, ws': seq<WorkerPc>, step: Step, role: Role)
    requires IsWorkerStep(step) ==> step.w < |ws| && step.w < |ws'| && ws' == ws[step.w := ws'[step.w]]
    requires !IsWorkerStep(step) ==> ws' == if step.Spawn? then ws + [Waiting] else ws
    ensures Workers(ws', role) == Workers(ws, role) + WorkersDelta(ws, ws', step, role)
  {
    if IsWorkerStep(step) {
      WorkersUpdate(ws, step.w, ws'[step.w], role);
    } else if step.Spawn? {
      assert ws'[..|ws|] == ws;
    }
  }

  lemma StepCallers(cfg: Config, s: State, step: Step, at: CallerPc)
    requires ValidConfig(cfg) && Enabled(cfg, s, step)
    ensures var s' := Apply(cfg, s, step);
      Callers(s'.callers, at) == Callers(s.callers, at)
        + (if IsCallerStep(step) then One(s'.callers[step.c] == at) - One(s.callers[step.c] == at) else 0)
  {
    var s' := Apply(cfg, s, step);
    if IsCallerStep(step) {
      CallersUpdate(s.callers, step.c, s'.callers[step.c], at);
      assert s'.callers == s.callers[step.c := s'.callers[step.c]];
    }
  }

  // ---------- what every step keeps ----------

  function Surplus(k: nat): nat { if k == 0 then 0 else k - 1 }

  /** The counters of `Stats`, in terms of where the goroutines stand. */
  predicate CounterLaws(s: State) {
    && s.queued == |s.queue| + Workers(s.workers, Uncleared) - Callers(s.callers, Enqueued)
    && s.completed == |s.finished|
    && s.active == Workers(s.workers, Active)
  }

  /** Live goroutines against `currentWorkers`, and the overshoot of the check-then-add in `addWorker`. */
  predicate WorkerLaws(cfg: Config, s: State) {
    && Workers(s.workers, Live) + Callers(s.callers, Spawning)
       == s.current + s.tokens + One(s.manager.Notifying?)
    && s.current + Callers(s.callers, PastCheck) <= cfg.maxWorkers + Surplus(|s.callers|)
    && s.tokens <= cfg.maxWorkers
  }

  /** Where task `t` is, counted over all places. */
  predicate PlaceLaw(s: State, t: Task) {
    && Count(s.accepted, t) == Count(s.queue, t) + Workers(s.workers, Holder(t)) + Count(s.finished, t)
    && Count(s.accepted, t) <= 1
  }

  /** How often task `t` ran. */
  predicate RunLaw(s: State, t: Task) {
    Count(s.ran, t) == Count(s.finished, t) + Workers(s.workers, Runner(t))
  }

  predicate QueueLaws(cfg: Config, s: State) {
    s.accepted == s.taken + s.queue && |s.queue| <= cfg.queueSize
  }

  lemma CounterLawsKept(cfg: Config, s: State, step: Step)
    requires ValidConfig(cfg) && Enabled(cfg, s, step) && CounterLaws(s)
    ensures CounterLaws(Apply(cfg, s, step))
  {
    hide Apply, Workers, Callers;
    QueuedKept(cfg, s, step);
    ActiveKept(cfg, s, step);
    CompletedKept(cfg, s, step);
  }

  lemma QueuedKept(cfg: Config, s: State, step: Step)
    requires ValidConfig(cfg) && Enabled(cfg, s, step)
    requires s.queued == |s.queue| + Workers(s.workers, Uncleared) - Callers(s.callers, Enqueued)
    ensures var s' := Apply(cfg, s, step);
      s'.queued == |s'.queue| + Workers(s'.workers, Uncleared) - Callers(s'.callers, Enqueued)
  {
    hide Workers, Callers;
    StepWorkers(cfg, s, step, Uncleared);
    StepCallers(cfg, s, step, Enqueued);
  }

  lemma ActiveKept(cfg: Config, s: State, step: Step)
    requires ValidConfig(cfg) && Enabled(cfg, s, step) && s.active == Workers(s.workers, Active)
    ensures var s' := Apply(cfg, s, step); s'.active == Workers(s'.workers, Active)
  {
    hide Workers;
    StepWorkers(cfg, s, step, Active);
  }

  lemma CompletedKept(cfg: Config, s: State, step: Step)
    requires ValidConfig(cfg) && Enabled(cfg, s, step) && s.completed == |s.finished|
    ensures var s' := Apply(cfg, s, step); s'.completed == |s'.finished|
  {
  }

  lemma WorkerLawsKept(cfg: Config, s: State, step: Step)
    requires ValidConfig(cfg) && Enabled(cfg, s, step) && WorkerLaws(cfg, s)
    ensures WorkerLaws(cfg, Apply(cfg, s, step))
  {
    hide Workers, Callers;
    StepWorkers(cfg, s, step, Live);
    StepCallers(cfg, s, step, Spawning);
    StepCallers(cfg, s, step, PastCheck);
    if step.CheckLimit? {
      CallersBound(s.callers, step.c, PastCheck);
    }
  }

  lemma HeadAndTail(q: seq<Task>, t: Task)
    requires q != []
    ensures Count(q, t) == One(q[0] == t) + Count(q[1..], t)
  {
    assert q == [q[0]] + q[1..];
  }

  /** What leaves the places outside the workers' hands, and what comes back to them. */
  lemma StepPlaces(cfg: Config, s: State, step: Step, t: Task)
    requires ValidConfig(cfg) && Enabled(cfg, s, step)
    ensures var s' := Apply(cfg, s, step);
      Count(s'.accepted, t) - Count(s'.queue, t) - Count(s'.finished, t)
      == Count(s.accepted, t) - Count(s.queue, t) - Count(s.finished, t)
         + (if step.Dequeue? then One(s.queue[0] == t)
            else if step.MarkCompleted? then -(One(s.workers[step.w].task == t) as int) else 0)
  {
    if step.Dequeue? {
      HeadAndTail(s.queue, t);
    }
  }

  lemma AcceptedOnce(cfg: Config, s: State, step: Step, t: Task)
    requires ValidConfig(cfg) && Enabled(cfg, s, step) && Count(s.accepted, t) <= 1
    ensures Count(Apply(cfg, s, step).accepted, t) <= 1
  {
  }

  lemma PlaceLawKept(cfg: Config, s: State, step: Step, t: Task)
    requires ValidConfig(cfg) && Enabled(cfg, s, step) && PlaceLaw(s, t)
    ensures PlaceLaw(Apply(cfg, s, step), t)
  {
    hide Workers, Count;
    StepWorkers(cfg, s, step, Holder(t));
    StepPlaces(cfg, s, step, t);
    AcceptedOnce(cfg, s, step, t);
  }

  lemma StepRuns(cfg: Config, s: State, step: Step, t: Task)
    requires ValidConfig(cfg) && Enabled(cfg, s, step)
    ensures var s' := Apply(cfg, s, step);
      Count(s'.ran, t) - Count(s'.finished, t)
      == Count(s.ran, t) - Count(s.finished, t)
         + (if step.RunTask? then One(s.workers[step.w].task == t)
            else if step.MarkCompleted? then -(One(s.workers[step.w].task == t) as int) else 0)
  {
  }

  lemma RunLawKept(cfg: Config, s: State, step: Step, t: Task)
    requires ValidConfig(cfg) && Enabled(cfg, s, step) && RunLaw(s, t)
    ensures RunLaw(Apply(cfg, s, step), t)
  {
    hide Workers;
    StepWorkers(cfg, s, step, Runner(t));
    StepRuns(cfg, s, step, t);
  }

  lemma QueueLawsKept(cfg: Config, s: State, step: Step)
    requires ValidConfig(cfg) && Enabled(cfg, s, step) && QueueLaws(cfg, s)
    ensures QueueLaws(cfg, Apply(cfg, s, step))
  {
    var s' := Apply(cfg, s, step);
    if step.Enqueue? {
      assert s'.accepted == s.taken + (s.queue + [step.t]);
    } else if step.Dequeue? {
      assert s.queue == [s.queue[0]] + s.queue[1..];
      assert s'.taken + s'.queue == s.taken + s.queue;
    }
  }

  ghost predicate Laws(cfg: Config, k: nat, s: State) {
    && |s.callers| == k
    && CounterLaws(s)
    && WorkerLaws(cfg, s)
    && QueueLaws(cfg, s)
    && forall t :: PlaceLaw(s, t) && RunLaw(s, t)
  }

  lemma LawsKept(cfg: Config, k: nat, s: State, step: Step)
    requires ValidConfig(cfg) && Enabled(cfg, s, step) && Laws(cfg, k, s)
    ensures Laws(cfg, k, Apply(cfg, s, step))
  {
    CounterLawsKept(cfg, s, step);
    WorkerLawsKept(cfg, s, step);
    QueueLawsKept(cfg, s, step);
    forall t ensures PlaceLaw(Apply(cfg, s, step), t) && RunLaw(Apply(cfg, s, step), t) {
      PlaceLawKept(cfg, s, step, t);
      RunLawKept(cfg, s, step, t);
    }
  }

  lemma {:induction false} AllWaiting(n: nat, role: Role)
    ensures Workers(seq(n, _ => Waiting), role) == if role.Live? then n else 0
  {
    if n > 0 {
      AllWaiting(n - 1, role);
      assert seq(n, _ => Waiting)[..n - 1] == seq(n - 1, _ => Waiting);
    }
  }

  lemma {:induction false} AllIdle(k: nat, at: CallerPc)
    requires !at.Idle?
    ensures Callers(seq(k, _ => Idle), at) == 0
  {
    if k > 0 {
      AllIdle(k - 1, at);
      assert seq(k, _ => Idle)[..k - 1] == seq(k - 1, _ => Idle);
    }
  }

  lemma InitialLaws(cfg: Config, k: nat)
    requires ValidConfig(cfg)
    ensures Laws(cfg, k, Initial(cfg, k))
  {
    var n := InitialWorkers(cfg);
    AllWaiting(n, Live);
    AllWaiting(n, Active);
    AllWaiting(n, Uncleared);
    AllIdle(k, Enqueued);
    AllIdle(k, Spawning);
    AllIdle(k, PastCheck);
    forall t ensures PlaceLaw(Initial(cfg, k), t) && RunLaw(Initial(cfg, k), t) {
      AllWaiting(n, Holder(t));
      AllWaiting(n, Runner(t));
    }
  }

  /** Every law holds in every reachable state, whatever the interleaving. */
  lemma {:induction false} LawsInvariant(cfg: Config, k: nat, steps: seq<Step>, s: State)
    requires ValidConfig(cfg) && Reaches(cfg, k, steps, s)
    ensures Laws(cfg, k, s)
    decreases |steps|
  {
    if steps == [] {
      InitialLaws(cfg, k);
    } else {
      var n := |steps| - 1;
      var p :| Reaches(cfg, k, steps[..n], p) && Enabled(cfg, p, steps[n]) && s == Apply(cfg, p, steps[n]);
      LawsInvariant(cfg, k, steps[..n], p);
      LawsKept(cfg, k, p, steps[n]);
    }
  }

  // ---------- main results ----------

  /** Task conservation: every accepted task is in exactly one of the queue, one worker's hands, and the
      finished tasks; it runs at most once, and exactly once if finished; dequeuing is first in, first out. */
  lemma TaskConservation(cfg: Config, k: nat, s: State, t: Task)
    requires ValidConfig(cfg) && Reachable(cfg, k, s)
    ensures s.accepted == s.taken + s.queue
    ensures Count(s.queue, t) + Workers(s.workers, Holder(t)) + Count(s.finished, t)
         == if t in s.accepted then 1 else 0
    ensures Count(s.ran, t) <= 1
    ensures t in s.finished ==> Count(s.ran, t) == 1
    ensures t in s.queue ==> t !in s.ran
  {
    var steps :| Reaches(cfg, k, steps, s);
    LawsInvariant(cfg, k, steps, s);
    assert PlaceLaw(s, t) && RunLaw(s, t);
    HoldersCoverRunners(s.workers, t);
    assert t in multiset(s.accepted) <==> t in s.accepted;
    assert t in multiset(s.queue) <==> t in s.queue;
    assert t in multiset(s.finished) <==> t in s.finished;
    assert t in multiset(s.ran) <==> t in s.ran;
  }

  lemma {:induction false} HoldersCoverRunners(ws: seq<WorkerPc>, t: Task)
    ensures Workers(ws, Runner(t)) <= Workers(ws, Holder(t))
  {
    if ws != [] {
      HoldersCoverRunners(ws[..|ws| - 1], t);
    }
  }

  /** What the counters `Stats` reads mean in every reachable state. */
  lemma StatsMeaning(cfg: Config, k: nat, s: State)
    requires ValidConfig(cfg) && Reachable(cfg, k, s)
    ensures CounterLaws(s)
    ensures -(k as int) <= s.queued <= cfg.queueSize + Workers(s.workers, Live)
    ensures 0 <= s.active <= Workers(s.workers, Live)
  {
    var steps :| Reaches(cfg, k, steps, s);
    LawsInvariant(cfg, k, steps, s);
    CallersAtMost(s.callers, Enqueued);
    BusyAreLive(s.workers);
  }

  lemma {:induction false} BusyAreLive(ws: seq<WorkerPc>)
    ensures Workers(ws, Uncleared) <= Workers(ws, Live)
    ensures Workers(ws, Active) <= Workers(ws, Live)
  {
    if ws != [] {
      BusyAreLive(ws[..|ws| - 1]);
    }
  }

  /** Worker accounting with k concurrent callers: the limit can be overshot by k - 1, and the goroutines
      actually alive are those counted plus one per token the manager has sent or is about to send. */
  lemma WorkerBounds(cfg: Config, k: nat, s: State)
    requires ValidConfig(cfg) && k >= 1 && Reachable(cfg, k, s)
    ensures s.current + Callers(s.callers, PastCheck) <= cfg.maxWorkers + k - 1
    ensures Workers(s.workers, Live) + Callers(s.callers, Spawning)
         == s.current + s.tokens + One(s.manager.Notifying?)
    ensures Workers(s.workers, Live) <= 2 * cfg.maxWorkers + k
    ensures s.current >= -(s.tokens + 1)
  {
    var steps :| Reaches(cfg, k, steps, s);
    LawsInvariant(cfg, k, steps, s);
  }

  /** At rest (no call in progress, every worker waiting or gone, nothing queued) the statistics are exact. */
  lemma StatsAtRest(cfg: Config, k: nat, s: State)
    requires ValidConfig(cfg) && Reachable(cfg, k, s)
    requires s.queue == []
    requires forall c :: 0 <= c < |s.callers| ==> s.callers[c].Idle?
    requires forall w :: 0 <= w < |s.workers| ==> s.workers[w].Waiting? || s.workers[w].Exited?
    ensures s.queued == 0 && s.active == 0 && s.completed == |s.accepted|
    ensures multiset(s.ran) == multiset(s.accepted) == multiset(s.finished)
  {
    var steps :| Reaches(cfg, k, steps, s);
    LawsInvariant(cfg, k, steps, s);
    NobodyAt(s.callers, Enqueued);
    NobodyPlays(s.workers, Uncleared);
    NobodyPlays(s.workers, Active);
    forall t ensures multiset(s.ran)[t] == multiset(s.accepted)[t] == multiset(s.finished)[t] {
      assert PlaceLaw(s, t) && RunLaw(s, t);
      NobodyPlays(s.workers, Holder(t));
      NobodyPlays(s.workers, Runner(t));
    }
    assert multiset(s.accepted) == multiset(s.finished);
    assert |s.accepted| == |multiset(s.accepted)| && |s.finished| == |multiset(s.finished)|;
  }

  lemma {:induction false} NobodyAt(cs: seq<CallerPc>, at: CallerPc)
    requires forall c :: 0 <= c < |cs| ==> cs[c] != at
    ensures Callers(cs, at) == 0
  {
    if cs != [] {
      NobodyAt(cs[..|cs| - 1], at);
    }
  }

  lemma {:induction false} NobodyPlays(ws: seq<WorkerPc>, role: Role)
    requires forall w :: 0 <= w < |ws| ==> !Plays(ws[w], role)
    ensures Workers(ws, role) == 0
  {
    if ws != [] {
      NobodyPlays(ws[..|ws| - 1], role);
    }
  }

  /** With limits that leave room in 31 bits, the source's int32 counters hold these exact values. */
  lemma CountersFitInt32(cfg: Config, k: nat, s: State)
    requires ValidConfig(cfg) && k >= 1 && Reachable(cfg, k, s)
    requires cfg.queueSize + 2 * cfg.maxWorkers + k < 0x8000_0000
    ensures -0x8000_0000 <= s.current < 0x8000_0000
    ensures -0x8000_0000 <= s.active < 0x8000_0000
    ensures -0x8000_0000 <= s.queued < 0x8000_0000
  {
    StatsMeaning(cfg, k, s);
    WorkerBounds(cfg, k, s);
    var steps :| Reaches(cfg, k, steps, s);
    LawsInvariant(cfg, k, steps, s);
  }

  /** Until it is closed a pool can refuse a task exactly when its queue is full or it has been cancelled, and
      accept any new one exactly when its queue is not full: a running pool has no choice. */
  lemma SubmitExact(cfg: Config, k: nat, s: State, c: nat, t: Task)
    requires ValidConfig(cfg) && Reachable(cfg, k, s) && !s.closed
    requires c < |s.callers| && s.callers[c].Idle? && t !in s.accepted
    ensures Enabled(cfg, s, Refuse(c)) <==> s.cancelled || |s.queue| == cfg.queueSize
    ensures Enabled(cfg, s, Enqueue(c, t)) <==> |s.queue| < cfg.queueSize
    ensures Enabled(cfg, s, Enqueue(c, t)) ==> Apply(cfg, s, Enqueue(c, t)).queue == s.queue + [t]
    ensures Enabled(cfg, s, Refuse(c)) ==> Apply(cfg, s, Refuse(c)) == s
  {
    hide CounterLaws, WorkerLaws, PlaceLaw, RunLaw;
    var steps :| Reaches(cfg, k, steps, s);
    LawsInvariant(cfg, k, steps, s);
  }

  // ---------- the manager's decision ----------

  predicate IsManagerStep(step: Step) {
    step.SampleWorkers? || step.SampleActive? || step.SampleQueue? || step.Shrink? || step.Notify? || step.StopManager?
  }

  /** Between its own steps the manager remembers what it sampled. */
  lemma ManagerRemembers(cfg: Config, s: State, step: Step)
    requires ValidConfig(cfg) && Enabled(cfg, s, step)
    ensures !IsManagerStep(step) ==> Apply(cfg, s, step).manager == s.manager
  {
  }

  /** The decision, over the three states in which `optimize` samples, with any steps of others between them: the
      manager counts a worker off if and only if it saw more than the minimum, then fewer than half of those it
      saw active, and then no counted task unfinished, queued or in a worker's hands. */
  lemma DecisionExact(cfg: Config, k: nat, p1: State, p2: State, p3: State)
    requires ValidConfig(cfg) && Reachable(cfg, k, p1) && Reachable(cfg, k, p2) && Reachable(cfg, k, p3)
    requires p1.manager.Resting?
    requires p2.manager == Apply(cfg, p1, SampleWorkers).manager
    requires p2.manager.SampledWorkers? && p3.manager == Apply(cfg, p2, SampleActive).manager
    requires p3.manager.SampledActive?
    ensures var m := Apply(cfg, p3, SampleQueue).manager;
      && (m.Shrinking? || m.Resting?)
      && (m.Shrinking? <==>
            && p1.current > cfg.minWorkers
            && 2 * (Workers(p2.workers, Active) + 1) <= p1.current
            && |p3.queue| + Workers(p3.workers, Uncleared) == Callers(p3.callers, Enqueued))
  {
    hide Apply, Reachable, Workers, Callers, CounterLaws;
    SamplesWorkers(cfg, p1);
    SamplesActive(cfg, p2);
    Decides(cfg, p3);
    StatsMeaning(cfg, k, p2);
    StatsMeaning(cfg, k, p3);
    Counters(p2);
    Counters(p3);
  }

  lemma Counters(s: State)
    requires CounterLaws(s)
    ensures s.queued == |s.queue| + Workers(s.workers, Uncleared) - Callers(s.callers, Enqueued)
    ensures s.active == Workers(s.workers, Active)
  {
  }

  lemma SamplesWorkers(cfg: Config, s: State)
    requires ValidConfig(cfg) && s.manager.Resting?
    ensures Apply(cfg, s, SampleWorkers).manager == SampledWorkers(s.current)
  {
  }

  lemma SamplesActive(cfg: Config, s: State)
    requires ValidConfig(cfg) && s.manager.SampledWorkers?
    ensures Apply(cfg, s, SampleActive).manager == SampledActive(s.manager.current, s.active)
  {
  }

  lemma Decides(cfg: Config, s: State)
    requires ValidConfig(cfg) && s.manager.SampledActive?
    ensures var m, m' := s.manager, Apply(cfg, s, SampleQueue).manager;
      && (m'.Shrinking? || m'.Resting?)
      && (m.active >= 0 ==>
            (m'.Shrinking? <==> m.current > cfg.minWorkers && 2 * (m.active + 1) <= m.current && s.queued == 0))
  {
    if s.manager.active >= 0 {
      HalfOf(s.manager.current, s.manager.active);
    }
  }

  lemma HalfOf(current: int, active: nat)
    ensures active < TruncDiv(current, 2) <==> 2 * (active + 1) <= current
  {
  }

  /** The manager never counts a worker off while a task that has been counted is queued, held or running, unless
      as many have been sent that are not counted yet. */
  lemma NothingPendingWhenShrinking(cfg: Config, k: nat, s: State)
    requires ValidConfig(cfg) && Reachable(cfg, k, s) && Enabled(cfg, s, SampleQueue)
    requires Apply(cfg, s, SampleQueue).manager.Shrinking?
    ensures |s.queue| + Workers(s.workers, Uncleared) == Callers(s.callers, Enqueued)
    ensures (forall c :: 0 <= c < |s.callers| ==> !s.callers[c].Enqueued?) ==>
              s.queue == [] && forall w :: 0 <= w < |s.workers| ==> !Plays(s.workers[w], Uncleared)
  {
    StatsMeaning(cfg, k, s);
    if forall c :: 0 <= c < |s.callers| ==> !s.callers[c].Enqueued? {
      NobodyAt(s.callers, Enqueued);
      forall w | 0 <= w < |s.workers| ensures !Plays(s.workers[w], Uncleared) {
        if Plays(s.workers[w], Uncleared) {
          SomebodyPlays(s.workers, w, Uncleared);
        }
      }
    }
  }

  lemma {:induction false} SomebodyPlays(ws: seq<WorkerPc>, w: nat, role: Role)
    requires w < |ws| && Plays(ws[w], role)
    ensures Workers(ws, role) > 0
  {
    if w < |ws| - 1 {
      SomebodyPlays(ws[..|ws| - 1], w, role);
    }
  }
}
