/** What the Lab 4 pool's limits and its counter of workers are worth: for every pool and every number of
    submitters, exactly when they hold throughout every run. */
module PoolBounds {
  import opened ThreadPool
  import opened PoolRuns

  // ---------- pools that never change size ----------

  /** Nobody on the way to one more worker. */
  predicate NoGrowth(cs: seq<CallerPc>) {
    forall c :: 0 <= c < |cs| ==> !cs[c].Expanding? && !cs[c].PastCheck? && !cs[c].Spawning?
  }

  /** Every sample of `currentWorkers` in flight read `n`, and the manager has not decided to shrink. */
  predicate AllSampled(s: State, n: int) {
    && (forall c :: 0 <= c < |s.callers| && s.callers[c].SawWorkers? ==> s.callers[c].current == n)
    && (s.manager.SampledWorkers? || s.manager.SampledActive? ==> s.manager.current == n)
    && !s.manager.Shrinking? && !s.manager.Notifying?
  }

  predicate NoneLeaving(ws: seq<WorkerPc>) {
    forall w :: 0 <= w < |ws| ==> !ws[w].Exiting? && !ws[w].Exited?
  }

  lemma NotCrowded(cfg: Config, queued: int)
    requires ValidConfig(cfg) && NeverCrowded(cfg) && queued <= cfg.queueSize + InitialWorkers(cfg)
    ensures !Crowded(cfg, queued)
  {
    CrowdedExact(cfg, queued);
  }

  lemma GrowthKept(cfg: Config, s: State, step: Step)
    requires ValidConfig(cfg) && Enabled(cfg, s, step)
    requires NoGrowth(s.callers) && !Crowded(cfg, s.queued)
    ensures var s' := Apply(cfg, s, step); |s'.workers| == |s.workers| && NoGrowth(s'.callers)
  {
  }

  lemma {:induction false} WorkersAtMost(ws: seq<WorkerPc>, role: Role)
    ensures Workers(ws, role) <= |ws|
  {
    if ws != [] {
      WorkersAtMost(ws[..|ws| - 1], role);
    }
  }

  lemma {:induction false} GrowthInvariant(cfg: Config, k: nat, steps: seq<Step>, s: State)
    requires ValidConfig(cfg) && NeverCrowded(cfg) && Reaches(cfg, k, steps, s)
    ensures |s.workers| == InitialWorkers(cfg) && NoGrowth(s.callers)
    decreases |steps|
  {
    if steps != [] {
      var n := |steps| - 1;
      var p :| Reaches(cfg, k, steps[..n], p) && Enabled(cfg, p, steps[n]) && s == Apply(cfg, p, steps[n]);
      GrowthInvariant(cfg, k, steps[..n], p);
      LawsInvariant(cfg, k, steps[..n], p);
      WorkersAtMost(p.workers, Uncleared);
      NotCrowded(cfg, p.queued);
      GrowthKept(cfg, p, steps[n]);
    }
  }

  /** The expansion threshold is respected: if no fill level can exceed it, no worker is ever added. */
  lemma ThresholdRespected(cfg: Config, k: nat, s: State)
    requires ValidConfig(cfg) && NeverCrowded(cfg) && Reachable(cfg, k, s)
    ensures |s.workers| == InitialWorkers(cfg)
  {
    var steps :| Reaches(cfg, k, steps, s);
    GrowthInvariant(cfg, k, steps, s);
  }

  predicate Steady(cfg: Config, s: State)
    requires ValidConfig(cfg)
  {
    var n := InitialWorkers(cfg);
    && s.current == n == |s.workers| && !s.closed
    && NoGrowth(s.callers) && AllSampled(s, n) && NoneLeaving(s.workers)
    && (s.manager.SampledActive? ==> s.manager.active >= 0)
  }

  lemma SteadyKept(cfg: Config, s: State, step: Step)
    requires ValidConfig(cfg) && Enabled(cfg, s, step) && Steady(cfg, s) && !s.cancelled && s.active >= 0
    requires s.callers == [] || InitialWorkers(cfg) >= cfg.maxWorkers || !Crowded(cfg, s.queued)
    ensures Steady(cfg, Apply(cfg, s, step))
  {
  }

  lemma CancelledForever(cfg: Config, s: State, step: Step)
    requires ValidConfig(cfg) && Enabled(cfg, s, step) && !Apply(cfg, s, step).cancelled
    ensures !s.cancelled
  {
  }

  lemma {:induction false} SteadyInvariant(cfg: Config, k: nat, steps: seq<Step>, s: State)
    requires ValidConfig(cfg) && !CanGrow(cfg, k) && Reaches(cfg, k, steps, s) && !s.cancelled
    ensures Steady(cfg, s)
    decreases |steps|
  {
    if steps != [] {
      var n := |steps| - 1;
      var p :| Reaches(cfg, k, steps[..n], p) && Enabled(cfg, p, steps[n]) && s == Apply(cfg, p, steps[n]);
      CancelledForever(cfg, p, steps[n]);
      SteadyInvariant(cfg, k, steps[..n], p);
      LawsInvariant(cfg, k, steps[..n], p);
      WorkersAtMost(p.workers, Uncleared);
      if NeverCrowded(cfg) {
        NotCrowded(cfg, p.queued);
      }
      SteadyKept(cfg, p, steps[n]);
    }
  }

  lemma {:induction false} EveryoneLive(ws: seq<WorkerPc>)
    requires NoneLeaving(ws)
    ensures Workers(ws, Live) == |ws|
  {
    if ws != [] {
      EveryoneLive(ws[..|ws| - 1]);
    }
  }

  /** A pool that cannot grow has exactly its initial workers, all alive, until it is stopped: no timeout and
      no decision of the manager ever takes one away. */
  lemma FixedPool(cfg: Config, k: nat, s: State)
    requires ValidConfig(cfg) && !CanGrow(cfg, k)
    requires Reachable(cfg, k, s) && !s.cancelled
    ensures s.current == Workers(s.workers, Live) == |s.workers| == InitialWorkers(cfg)
  {
    var steps :| Reaches(cfg, k, steps, s);
    SteadyInvariant(cfg, k, steps, s);
    EveryoneLive(s.workers);
  }

  // ---------- the minimum ----------

  /** A running state in which nobody is left although the pool began with someone. */
  lemma BelowMinimum(cfg: Config, k: nat) returns (s: State)
    requires ValidConfig(cfg) && CanGrow(cfg, k) && cfg.maxWorkers + k >= 3
    ensures Reachable(cfg, k, s) && !s.cancelled && Workers(s.workers, Live) == 0 && s.current == -1
  {
    s := Fullest(cfg, k);
    s := Drifted(cfg, k, s);
  }

  /** Main result on the minimum: a running pool always keeps the workers it started with alive if and only if
      nobody submits, it started with none, its limits coincide, or it never grows; and otherwise it can lose
      every one of them. */
  lemma MinimumExact(cfg: Config, k: nat)
    requires ValidConfig(cfg)
    ensures (forall s :: Reachable(cfg, k, s) && !s.cancelled ==> Workers(s.workers, Live) >= InitialWorkers(cfg))
       <==> k == 0 || InitialWorkers(cfg) == 0 || cfg.minWorkers >= cfg.maxWorkers || NeverCrowded(cfg)
    ensures (forall s :: Reachable(cfg, k, s) && !s.cancelled ==> Workers(s.workers, Live) >= 1)
       <==> InitialWorkers(cfg) >= 1 && (k == 0 || cfg.minWorkers >= cfg.maxWorkers || NeverCrowded(cfg))
  {
    if k == 0 || cfg.minWorkers >= cfg.maxWorkers || NeverCrowded(cfg) {
      forall s | Reachable(cfg, k, s) && !s.cancelled ensures Workers(s.workers, Live) >= InitialWorkers(cfg) {
        FixedPool(cfg, k, s);
      }
    } else if InitialWorkers(cfg) > 0 {
      var s := BelowMinimum(cfg, k);
    }
    if InitialWorkers(cfg) == 0 {
      Started(cfg, k);
      assert Workers(Initial(cfg, k).workers, Live) == 0;
    }
  }

  // ---------- the maximum ----------

  /** The bound of `WorkerBounds` on the counter is met by every pool that can grow. */
  lemma BoundIsTight(cfg: Config, k: nat) returns (s: State)
    requires ValidConfig(cfg) && CanGrow(cfg, k)
    ensures Reachable(cfg, k, s) && !s.cancelled && s.current == cfg.maxWorkers + k - 1
  {
    s := Fullest(cfg, k);
  }

  /** Main result on the limit: a running pool never counts more than `maxWorkers` if and only if at most one
      goroutine submits, it started with the maximum, or it never grows. */
  lemma LimitExact(cfg: Config, k: nat)
    requires ValidConfig(cfg)
    ensures (forall s :: Reachable(cfg, k, s) && !s.cancelled ==> s.current <= cfg.maxWorkers)
       <==> k <= 1 || InitialWorkers(cfg) == cfg.maxWorkers || NeverCrowded(cfg)
  {
    if k <= 1 || InitialWorkers(cfg) == cfg.maxWorkers || NeverCrowded(cfg) {
      forall s | Reachable(cfg, k, s) && !s.cancelled ensures s.current <= cfg.maxWorkers {
        var steps :| Reaches(cfg, k, steps, s);
        LawsInvariant(cfg, k, steps, s);
        if k > 1 {
          FixedPool(cfg, k, s);
        }
      }
    } else {
      var s := BoundIsTight(cfg, k);
    }
  }

  // ---------- the counter ----------

  /** A manager that never sees more than one worker never counts one off. */
  predicate NeverShrunk(s: State) {
    && s.tokens == 0 && !s.manager.Shrinking? && !s.manager.Notifying?
    && (s.manager.SampledWorkers? || s.manager.SampledActive? ==> s.manager.current <= 1)
    && (s.manager.SampledActive? ==> s.manager.active >= 0)
  }

  lemma NeverShrunkKept(cfg: Config, s: State, step: Step)
    requires ValidConfig(cfg) && Enabled(cfg, s, step) && NeverShrunk(s) && s.current <= 1 && s.active >= 0
    ensures NeverShrunk(Apply(cfg, s, step))
  {
  }

  lemma {:induction false} NeverShrunkInvariant(cfg: Config, k: nat, steps: seq<Step>, s: State)
    requires ValidConfig(cfg) && k >= 1 && cfg.maxWorkers + k <= 2 && Reaches(cfg, k, steps, s)
    ensures NeverShrunk(s)
    decreases |steps|
  {
    if steps != [] {
      var n := |steps| - 1;
      var p :| Reaches(cfg, k, steps[..n], p) && Enabled(cfg, p, steps[n]) && s == Apply(cfg, p, steps[n]);
      NeverShrunkInvariant(cfg, k, steps[..n], p);
      LawsInvariant(cfg, k, steps[..n], p);
      NeverShrunkKept(cfg, p, steps[n]);
    }
  }

  /** Pools whose counter is right. */
  lemma CounterRight(cfg: Config, k: nat, s: State)
    requires ValidConfig(cfg) && Reachable(cfg, k, s) && !s.cancelled
    requires !CanGrow(cfg, k) || cfg.maxWorkers + k <= 2
    ensures s.current == Workers(s.workers, Live) + Callers(s.callers, Spawning)
  {
    var steps :| Reaches(cfg, k, steps, s);
    LawsInvariant(cfg, k, steps, s);
    if !CanGrow(cfg, k) {
      FixedPool(cfg, k, s);
      SteadyInvariant(cfg, k, steps, s);
      NobodyAt(s.callers, Spawning);
    } else {
      NeverShrunkInvariant(cfg, k, steps, s);
    }
  }

  /** Main result on the counter: `currentWorkers` counts the workers alive or about to start throughout every run
      if and only if the pool cannot grow or the manager can never see two workers; exactly these are the pools in
      which it is never negative. */
  lemma DriftExact(cfg: Config, k: nat)
    requires ValidConfig(cfg)
    ensures (forall s :: Reachable(cfg, k, s) && !s.cancelled ==>
               s.current == Workers(s.workers, Live) + Callers(s.callers, Spawning))
       <==> !CanGrow(cfg, k) || cfg.maxWorkers + k <= 2
    ensures (forall s :: Reachable(cfg, k, s) && !s.cancelled ==> s.current >= 0)
       <==> !CanGrow(cfg, k) || cfg.maxWorkers + k <= 2
  {
    if !CanGrow(cfg, k) || cfg.maxWorkers + k <= 2 {
      forall s | Reachable(cfg, k, s) && !s.cancelled
        ensures s.current == Workers(s.workers, Live) + Callers(s.callers, Spawning)
      {
        CounterRight(cfg, k, s);
      }
    } else {
      var s := BelowMinimum(cfg, k);
    }
  }

  /** The bound of `WorkerBounds` on live workers is met exactly by the pools whose counter drifts. */
  lemma MostAliveExact(cfg: Config, k: nat)
    requires ValidConfig(cfg) && k >= 1
    ensures (exists s :: Reachable(cfg, k, s) && !s.cancelled && Workers(s.workers, Live) == 2 * cfg.maxWorkers + k)
       <==> CanGrow(cfg, k) && cfg.maxWorkers + k >= 3
  {
    if CanGrow(cfg, k) && cfg.maxWorkers + k >= 3 {
      var s := MostAlive(cfg, k);
    } else {
      forall s | Reachable(cfg, k, s) && !s.cancelled ensures Workers(s.workers, Live) < 2 * cfg.maxWorkers + k {
        CounterRight(cfg, k, s);
        WorkerBounds(cfg, k, s);
        if !CanGrow(cfg, k) {
          FixedPool(cfg, k, s);
        }
      }
    }
  }

  // ---------- stranded tasks ----------

  /** An accepted task waits, nobody is alive to take it, and no caller is on the way to change that. */
  predicate HasStranded(s: State) {
    s.queue != [] && Workers(s.workers, Live) == 0 && Free(s.callers)
  }

  lemma NothingKept(cfg: Config, s: State, step: Step)
    requires ValidConfig(cfg) && Enabled(cfg, s, step) && s.callers == [] && s.queue == []
    ensures Apply(cfg, s, step).callers == [] && Apply(cfg, s, step).queue == []
  {
  }

  lemma {:induction false} NobodySubmits(cfg: Config, steps: seq<Step>, s: State)
    requires ValidConfig(cfg) && Reaches(cfg, 0, steps, s)
    ensures s.callers == [] && s.queue == []
    decreases |steps|
  {
    hide Apply, Enabled;
    if steps != [] {
      var n := |steps| - 1;
      var p :| Reaches(cfg, 0, steps[..n], p) && Enabled(cfg, p, steps[n]) && s == Apply(cfg, p, steps[n]);
      NobodySubmits(cfg, steps[..n], p);
      NothingKept(cfg, p, steps[n]);
    }
  }

  lemma StrandedAtOnce(cfg: Config, k: nat) returns (s: State)
    requires ValidConfig(cfg) && k >= 1 && InitialWorkers(cfg) == 0 && !CanGrow(cfg, k)
    ensures Reachable(cfg, k, s) && !s.cancelled && HasStranded(s)
  {
    Started(cfg, k);
    s := Submitted(cfg, k, Initial(cfg, k), 0);
    if NeverCrowded(cfg) {
      NotCrowded(cfg, s.queued);
    }
    s := Returned(cfg, k, s, 0);
  }

  /** Main result on stranded tasks: a running pool can leave an accepted task with nobody alive and every caller
      gone if and only if somebody submits and it started with no worker or can grow. */
  lemma StrandedExact(cfg: Config, k: nat)
    requires ValidConfig(cfg)
    ensures (exists s :: Reachable(cfg, k, s) && !s.cancelled && HasStranded(s))
       <==> k >= 1 && (InitialWorkers(cfg) == 0 || CanGrow(cfg, k))
  {
    if CanGrow(cfg, k) {
      var s := Fullest(cfg, k);
      s := Stranded(cfg, k, s);
    } else if k >= 1 && InitialWorkers(cfg) == 0 {
      var s := StrandedAtOnce(cfg, k);
    } else {
      forall s | Reachable(cfg, k, s) && !s.cancelled ensures !HasStranded(s) {
        FixedPool(cfg, k, s);
        if k == 0 {
          var steps :| Reaches(cfg, k, steps, s);
          NobodySubmits(cfg, steps, s);
        }
      }
    }
  }

  // ---------- stopping ----------

  /** Only a cancelled pool is closed, and only its manager ends. */
  lemma {:induction false} EndsWhenCancelled(cfg: Config, k: nat, steps: seq<Step>, s: State)
    requires ValidConfig(cfg) && Reaches(cfg, k, steps, s)
    ensures s.closed || s.manager.Stopped? ==> s.cancelled
    decreases |steps|
  {
    if steps != [] {
      var n := |steps| - 1;
      var p :| Reaches(cfg, k, steps[..n], p) && Enabled(cfg, p, steps[n]) && s == Apply(cfg, p, steps[n]);
      EndsWhenCancelled(cfg, k, steps[..n], p);
      EndKept(cfg, p, steps[n]);
    }
  }

  lemma EndKept(cfg: Config, s: State, step: Step)
    requires ValidConfig(cfg) && Enabled(cfg, s, step) && (s.closed || s.manager.Stopped? ==> s.cancelled)
    ensures var s' := Apply(cfg, s, step); s'.closed || s'.manager.Stopped? ==> s'.cancelled
  {
  }

  /** Every pool can be stopped: some run ends with all workers and the manager gone and the queue closed. */
  lemma StopCompletes(cfg: Config, k: nat) returns (s: State)
    requires ValidConfig(cfg)
    ensures Reachable(cfg, k, s) && s.cancelled && s.closed && s.manager.Stopped?
    ensures |s.workers| == InitialWorkers(cfg) && Workers(s.workers, Live) == 0
  {
    StartReady(cfg, k);
    s := ShutDown(cfg, k, Initial(cfg, k));
    NobodyPlays(s.workers, Live);
  }

  // ---------- one run ----------

  lemma TwoWorkers(cfg: Config) returns (s: State)
    requires cfg == Config(1, 2, 1, 0.0)
    ensures Going(cfg, 1, s) && Free(s.callers) && Calm(s.workers) && |s.workers| == 2 && s.current == 2
    ensures s.manager.Resting? && s.tokens == 0
  {
    Started(cfg, 1);
    s := Submitted(cfg, 1, Initial(cfg, 1), 0);
    CrowdedExact(cfg, s.queued);
    s := Hired(cfg, 1, s, 0);
  }

  /** The manager's shrink step counts a worker off that no token ever stops, so `currentWorkers` can go
      negative; and timeouts that race leave no worker alive although `minWorkers` is 1. */
  lemma CounterDriftIsReal() returns (cfg: Config, s: State)
    ensures ValidConfig(cfg) && Reachable(cfg, 1, s) && cfg.minWorkers == 1
    ensures s.current == -1 && s.workers == [Exited, Exited]
  {
    cfg := Config(1, 2, 1, 0.0);
    s := TwoWorkers(cfg);
    s := Drifted(cfg, 1, s);
  }
}
