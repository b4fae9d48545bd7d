/** Runs of the Lab 4 pool, put together step by step: how submitters, workers and manager can bring a pool that
    grows at all to its extreme states. */
module PoolRuns {
  import opened ThreadPool

  // ---------- when a pool is crowded ----------

  /** The highest fill the queue counter can show with the initial workers stays within the threshold. */
  predicate NeverCrowded(cfg: Config)
    requires ValidConfig(cfg)
  {
    (cfg.queueSize + InitialWorkers(cfg)) as real <= cfg.threshold * cfg.queueSize as real
  }

  /** `queued` tasks crowd the pool exactly when they exceed that fraction of the queue. */
  lemma CrowdedExact(cfg: Config, queued: int)
    requires ValidConfig(cfg)
    ensures Crowded(cfg, queued) <==> queued as real > cfg.threshold * cfg.queueSize as real
  {
    var x, size := queued as real, cfg.queueSize as real;
    var q := x / size;
    assert q * size == x;
    if q > cfg.threshold {
      assert (q - cfg.threshold) * size > 0.0;
    } else {
      assert (cfg.threshold - q) * size >= 0.0;
    }
  }

  lemma TopIsCrowded(cfg: Config)
    requires ValidConfig(cfg) && !NeverCrowded(cfg)
    ensures Crowded(cfg, cfg.queueSize + InitialWorkers(cfg))
  {
    CrowdedExact(cfg, cfg.queueSize + InitialWorkers(cfg));
  }

  // ---------- single steps ----------

  lemma Advance(cfg: Config, k: nat, s: State, step: Step) returns (s': State)
    requires ValidConfig(cfg) && Reachable(cfg, k, s) && Enabled(cfg, s, step)
    ensures Reachable(cfg, k, s') && s' == Apply(cfg, s, step)
  {
    s' := Apply(cfg, s, step);
    var steps :| Reaches(cfg, k, steps, s);
    var longer := steps + [step];
    assert longer[..|longer| - 1] == steps;
    assert Reaches(cfg, k, longer, s');
  }

  /** Running, with `k` submitters. */
  ghost predicate Going(cfg: Config, k: nat, s: State)
    requires ValidConfig(cfg)
  {
    Reachable(cfg, k, s) && |s.callers| == k && !s.closed && !s.cancelled
  }

  /** From one running state to another in which the manager has done nothing. */
  ghost predicate Next(cfg: Config, k: nat, s: State, s': State)
    requires ValidConfig(cfg)
  {
    Going(cfg, k, s') && s'.manager == s.manager && s'.tokens == s.tokens
  }

  lemma Started(cfg: Config, k: nat)
    requires ValidConfig(cfg)
    ensures Going(cfg, k, Initial(cfg, k))
  {
    assert Reaches(cfg, k, [], Initial(cfg, k));
  }

  /** Every worker waits, holds a task it has not begun, or is gone. */
  predicate Calm(ws: seq<WorkerPc>) {
    forall w :: 0 <= w < |ws| ==> ws[w].Waiting? || ws[w].Holding? || ws[w].Exited?
  }

  predicate AtEase(ws: seq<WorkerPc>) {
    forall w :: 0 <= w < |ws| ==> ws[w].Waiting? || ws[w].Exited?
  }

  predicate Free(cs: seq<CallerPc>) {
    forall c :: 0 <= c < |cs| ==> cs[c].Idle?
  }

  function Unused(q: seq<Task>): (t: Task)
    ensures forall u :: u in q ==> u < t
  {
    if q == [] then 0
    else
      var n := |q| - 1;
      var t := Unused(q[..n]);
      assert q == q[..n] + [q[n]];
      if q[n] < t then t else q[n] + 1
  }

  /** `Submit` sends a task and counts it. */
  lemma Submitted(cfg: Config, k: nat, s: State, c: nat) returns (s': State)
    requires ValidConfig(cfg) && Going(cfg, k, s) && c < k && s.callers[c].Idle? && |s.queue| < cfg.queueSize
    ensures Next(cfg, k, s, s') && s'.callers == s.callers[c := Counted] && s'.workers == s.workers
    ensures s'.current == s.current && s'.queued == s.queued + 1 && |s'.queue| == |s.queue| + 1
  {
    s' := Advance(cfg, k, s, Enqueue(c, Unused(s.accepted)));
    s' := Advance(cfg, k, s', CountQueued(c));
  }

  lemma Taken(cfg: Config, k: nat, s: State, w: nat) returns (s': State)
    requires ValidConfig(cfg) && Going(cfg, k, s) && w < |s.workers| && s.workers[w].Waiting? && s.queue != []
    ensures Next(cfg, k, s, s') && s'.callers == s.callers && s'.current == s.current && s'.queued == s.queued
    ensures |s'.queue| == |s.queue| - 1 && s'.workers == s.workers[w := Holding(s.queue[0])]
  {
    s' := Advance(cfg, k, s, Dequeue(w));
  }

  lemma Finished(cfg: Config, k: nat, s: State, w: nat) returns (s': State)
    requires ValidConfig(cfg) && Going(cfg, k, s) && w < |s.workers| && s.workers[w].Holding?
    ensures Next(cfg, k, s, s') && s'.callers == s.callers && s'.current == s.current && s'.queued == s.queued - 1
    ensures s'.queue == s.queue && s'.workers == s.workers[w := Waiting]
  {
    s' := Run(cfg, k, s, w);
    s' := Advance(cfg, k, s', ClearActive(w));
    s' := Advance(cfg, k, s', MarkCompleted(w));
    s' := Advance(cfg, k, s', Uncount(w));
  }

  lemma Run(cfg: Config, k: nat, s: State, w: nat) returns (s': State)
    requires ValidConfig(cfg) && Going(cfg, k, s) && w < |s.workers| && s.workers[w].Holding?
    ensures Next(cfg, k, s, s') && s'.callers == s.callers && s'.current == s.current && s'.queued == s.queued
    ensures s'.queue == s.queue && s'.workers == s.workers[w := Ran(s.workers[w].task)]
  {
    s' := Advance(cfg, k, s, MarkActive(w));
    s' := Advance(cfg, k, s', RunTask(w));
  }

  /** `checkAndExpand` finds nothing to do. */
  lemma Returned(cfg: Config, k: nat, s: State, c: nat) returns (s': State)
    requires ValidConfig(cfg) && Going(cfg, k, s) && c < k && s.callers[c].Counted?
    requires s.current >= cfg.maxWorkers || !Crowded(cfg, s.queued)
    ensures Next(cfg, k, s, s') && s' == s.(callers := s.callers[c := Idle])
  {
    s' := Advance(cfg, k, s, LoadWorkers(c));
    s' := Advance(cfg, k, s', LoadQueue(c));
  }

  /** `checkAndExpand` finds the pool too small and `addWorker` below its limit. */
  lemma Parked(cfg: Config, k: nat, s: State, c: nat) returns (s': State)
    requires ValidConfig(cfg) && Going(cfg, k, s) && c < k && s.callers[c].Counted?
    requires s.current < cfg.maxWorkers && Crowded(cfg, s.queued)
    ensures Next(cfg, k, s, s') && s' == s.(callers := s.callers[c := PastCheck])
  {
    s' := Advance(cfg, k, s, LoadWorkers(c));
    s' := Advance(cfg, k, s', LoadQueue(c));
    s' := Advance(cfg, k, s', CheckLimit(c));
  }

  lemma Spawned(cfg: Config, k: nat, s: State, c: nat) returns (s': State)
    requires ValidConfig(cfg) && Going(cfg, k, s) && c < k && s.callers[c].PastCheck?
    ensures Next(cfg, k, s, s')
    ensures s' == s.(callers := s.callers[c := Idle], current := s.current + 1, workers := s.workers + [Waiting])
  {
    s' := Advance(cfg, k, s, CountWorker(c));
    s' := Advance(cfg, k, s', Spawn(c));
  }

  /** A caller that goes through with adding a worker. */
  lemma Hired(cfg: Config, k: nat, s: State, c: nat) returns (s': State)
    requires ValidConfig(cfg) && Going(cfg, k, s) && c < k && s.callers[c].Counted?
    requires s.current < cfg.maxWorkers && Crowded(cfg, s.queued)
    ensures Next(cfg, k, s, s')
    ensures s' == s.(callers := s.callers[c := Idle], current := s.current + 1, workers := s.workers + [Waiting])
  {
    s' := Parked(cfg, k, s, c);
    s' := Spawned(cfg, k, s', c);
  }

  lemma TimedOut(cfg: Config, k: nat, s: State, w: nat) returns (s': State)
    requires ValidConfig(cfg) && Going(cfg, k, s) && w < |s.workers| && s.workers[w].Waiting?
    requires s.current > cfg.minWorkers
    ensures Next(cfg, k, s, s') && s' == s.(current := s.current - 1, workers := s.workers[w := Exited])
  {
    s' := Advance(cfg, k, s, Timeout(w));
    s' := Advance(cfg, k, s', Exit(w));
  }

  // ---------- finding workers ----------

  lemma {:induction false} FindWaiting(ws: seq<WorkerPc>) returns (w: nat)
    requires Calm(ws) && Workers(ws, Live) > Workers(ws, Uncleared)
    ensures w < |ws| && ws[w].Waiting?
  {
    w := |ws| - 1;
    if !ws[w].Waiting? {
      w := FindWaiting(ws[..w]);
    }
  }

  lemma {:induction false} FindHolding(ws: seq<WorkerPc>) returns (w: nat)
    requires Calm(ws) && Workers(ws, Uncleared) > 0
    ensures w < |ws| && ws[w].Holding?
  {
    w := |ws| - 1;
    if !ws[w].Holding? {
      w := FindHolding(ws[..w]);
    }
  }

  /** The laws, where nobody is between sending a task and counting it or about to start a worker. */
  lemma Accounts(cfg: Config, k: nat, s: State)
    requires ValidConfig(cfg) && Going(cfg, k, s)
    requires forall c :: 0 <= c < k ==> s.callers[c].Idle? || s.callers[c].Counted?
    ensures Workers(s.workers, Live) == s.current + s.tokens + One(s.manager.Notifying?)
    ensures s.queued == |s.queue| + Workers(s.workers, Uncleared) && |s.queue| <= cfg.queueSize
    ensures s.active == Workers(s.workers, Active) && s.tokens <= cfg.maxWorkers
  {
    var steps :| Reaches(cfg, k, steps, s);
    LawsInvariant(cfg, k, steps, s);
    NobodyAt(s.callers, Enqueued);
    NobodyAt(s.callers, Spawning);
  }

  lemma NoneBusy(ws: seq<WorkerPc>)
    requires AtEase(ws)
    ensures Workers(ws, Uncleared) == Workers(ws, Active) == 0
  {
    NobodyPlays(ws, Uncleared);
    NobodyPlays(ws, Active);
  }

  // ---------- crowding a pool ----------

  /** Nothing to do and at least the initial workers alive. */
  ghost predicate Ready(cfg: Config, k: nat, s: State)
    requires ValidConfig(cfg)
  {
    && Going(cfg, k, s) && Free(s.callers) && AtEase(s.workers) && s.queue == []
    && s.current >= InitialWorkers(cfg)
  }

  /** Room for one more task: a full queue leaves a worker waiting as long as fewer than the highest fill are queued. */
  lemma Emptier(cfg: Config, k: nat, s: State) returns (s': State)
    requires ValidConfig(cfg) && Going(cfg, k, s) && Free(s.callers) && Calm(s.workers)
    requires s.current >= InitialWorkers(cfg) && s.queued < cfg.queueSize + InitialWorkers(cfg)
    ensures Next(cfg, k, s, s') && s'.callers == s.callers && Calm(s'.workers) && |s'.queue| < cfg.queueSize
    ensures s'.current == s.current && s'.queued == s.queued
  {
    Accounts(cfg, k, s);
    s' := s;
    if |s.queue| == cfg.queueSize {
      var w := FindWaiting(s.workers);
      s' := Taken(cfg, k, s, w);
    }
  }

  /** One caller goes on submitting until the pool is crowded, and is stopped before it looks. */
  lemma {:induction false} CrowdedFrom(cfg: Config, k: nat, s: State) returns (s': State)
    requires ValidConfig(cfg) && !NeverCrowded(cfg) && k >= 1 && Going(cfg, k, s) && Free(s.callers)
    requires Calm(s.workers) && s.current >= InitialWorkers(cfg)
    requires 0 <= s.queued < cfg.queueSize + InitialWorkers(cfg)
    ensures Next(cfg, k, s, s') && s'.callers == s.callers[0 := Counted] && Calm(s'.workers)
    ensures s'.current == s.current && s'.queued > 0 && Crowded(cfg, s'.queued)
    decreases cfg.queueSize + InitialWorkers(cfg) - s.queued
  {
    hide Crowded, NeverCrowded, Reachable;
    TopIsCrowded(cfg);
    s' := Emptier(cfg, k, s);
    s' := Submitted(cfg, k, s', 0);
    if !Crowded(cfg, s'.queued) {
      s' := Returned(cfg, k, s', 0);
      assert s'.callers == s.callers;
      s' := CrowdedFrom(cfg, k, s');
    }
  }

  /** A crowded pool with a worker at hand that has a task, and room in the queue. */
  ghost predicate Busy(cfg: Config, k: nat, s: State, e: nat)
    requires ValidConfig(cfg)
  {
    && Going(cfg, k, s) && Calm(s.workers) && e < |s.workers| && s.workers[e].Holding?
    && Crowded(cfg, s.queued) && |s.queue| < cfg.queueSize
  }

  lemma BusyFrom(cfg: Config, k: nat, s: State) returns (s': State, e: nat)
    requires ValidConfig(cfg) && !NeverCrowded(cfg) && k >= 1 && Ready(cfg, k, s) && s.current < cfg.maxWorkers
    ensures Next(cfg, k, s, s') && Busy(cfg, k, s', e) && s'.callers == s.callers
    ensures s'.current == s.current + 1
  {
    hide Crowded, NeverCrowded, Reachable;
    Accounts(cfg, k, s);
    NoneBusy(s.workers);
    s' := CrowdedFrom(cfg, k, s);
    s' := Hired(cfg, k, s', 0);
    assert s'.callers == s.callers;
    if s'.queue == [] {
      Accounts(cfg, k, s');
      e := FindHolding(s'.workers);
    } else {
      e := |s'.workers| - 1;
      Accounts(cfg, k, s');
      s' := Taken(cfg, k, s', e);
    }
  }

  /** A worker with a task finishes it and takes another, and the caller submits one: nobody else notices. */
  lemma Recycled(cfg: Config, k: nat, s: State, e: nat, c: nat) returns (s': State)
    requires ValidConfig(cfg) && Going(cfg, k, s) && Calm(s.workers) && c < k && s.callers[c].Idle?
    requires forall d :: 0 <= d < k ==> s.callers[d].Idle? || s.callers[d].Counted?
    requires e < |s.workers| && s.workers[e].Holding?
    ensures Next(cfg, k, s, s') && Calm(s'.workers) && e < |s'.workers| && s'.workers[e].Holding?
    ensures s'.callers == s.callers[c := Counted] && s'.current == s.current
    ensures s'.queued == s.queued && |s'.queue| == |s.queue|
  {
    hide Reachable;
    Accounts(cfg, k, s);
    s' := Finished(cfg, k, s, e);
    if s.queue == [] {
      s' := Submitted(cfg, k, s', c);
      s' := Taken(cfg, k, s', e);
    } else {
      s' := Taken(cfg, k, s', e);
      s' := Submitted(cfg, k, s', c);
    }
  }

  // ---------- filling and overfilling it ----------

  /** One caller alone fills the pool up to its limit. */
  lemma {:induction false} Grown(cfg: Config, k: nat, s: State, e: nat, c: nat) returns (s': State)
    requires ValidConfig(cfg) && Busy(cfg, k, s, e) && c < k && Free(s.callers) && s.current <= cfg.maxWorkers
    ensures Next(cfg, k, s, s') && Busy(cfg, k, s', e) && s'.callers == s.callers && s'.current == cfg.maxWorkers
    decreases cfg.maxWorkers - s.current
  {
    hide Crowded, Reachable;
    s' := s;
    if s.current < cfg.maxWorkers {
      s' := Recycled(cfg, k, s, e, c);
      s' := Hired(cfg, k, s', c);
      assert s'.callers == s.callers;
      s' := Grown(cfg, k, s', e, c);
    }
  }

  predicate UpTo(cs: seq<CallerPc>, i: nat, before: CallerPc, after: CallerPc) {
    forall c :: 0 <= c < |cs| ==> cs[c] == if c < i then before else after
  }

  /** Callers from `i` on submit too, and all stand before their look at the pool. */
  lemma {:induction false} AllCounted(cfg: Config, k: nat, s: State, e: nat, i: nat) returns (s': State)
    requires ValidConfig(cfg) && Going(cfg, k, s) && i <= k && UpTo(s.callers, i, Counted, Idle) && Calm(s.workers)
    requires e < |s.workers| && s.workers[e].Holding?
    ensures Next(cfg, k, s, s') && UpTo(s'.callers, k, Counted, Counted) && Calm(s'.workers)
    ensures e < |s'.workers| && s'.workers[e].Holding?
    ensures s'.current == s.current && s'.queued == s.queued
    decreases k - i
  {
    hide Reachable;
    s' := s;
    if i < k {
      s' := Recycled(cfg, k, s, e, i);
      s' := AllCounted(cfg, k, s', e, i + 1);
    }
  }

  /** They all look while there is room for one more worker. */
  lemma {:induction false} AllParked(cfg: Config, k: nat, s: State, i: nat) returns (s': State)
    requires ValidConfig(cfg) && Going(cfg, k, s) && i <= k && UpTo(s.callers, i, PastCheck, Counted)
    requires s.current < cfg.maxWorkers && Crowded(cfg, s.queued)
    ensures Next(cfg, k, s, s') && UpTo(s'.callers, k, PastCheck, PastCheck)
    ensures s'.current == s.current && s'.workers == s.workers
    decreases k - i
  {
    hide Crowded, Reachable;
    s' := s;
    if i < k {
      s' := Parked(cfg, k, s, i);
      s' := AllParked(cfg, k, s', i + 1);
    }
  }

  /** And they all add one. */
  lemma {:induction false} AllSpawned(cfg: Config, k: nat, s: State, i: nat) returns (s': State)
    requires ValidConfig(cfg) && Going(cfg, k, s) && i <= k && UpTo(s.callers, i, Idle, PastCheck) && Calm(s.workers)
    ensures Next(cfg, k, s, s') && Free(s'.callers) && Calm(s'.workers) && s'.current == s.current + k - i
    decreases k - i
  {
    hide Reachable;
    s' := s;
    if i < k {
      s' := Spawned(cfg, k, s, i);
      s' := AllSpawned(cfg, k, s', i + 1);
    }
  }

  /** A full pool loses a worker while every caller is about to look: `maxWorkers + k - 1` workers are counted. */
  lemma Overfilled(cfg: Config, k: nat, s: State, e: nat) returns (s': State)
    requires ValidConfig(cfg) && Busy(cfg, k, s, e) && k >= 1 && Free(s.callers)
    requires s.current == cfg.maxWorkers > cfg.minWorkers
    ensures Next(cfg, k, s, s') && Free(s'.callers) && Calm(s'.workers) && s'.current == cfg.maxWorkers + k - 1
  {
    hide Reachable, Crowded;
    s' := Submitted(cfg, k, s, 0);
    s' := AllCounted(cfg, k, s', e, 1);
    s' := Finished(cfg, k, s', e);
    s' := TimedOut(cfg, k, s', e);
    s' := AllParked(cfg, k, s', 0);
    s' := AllSpawned(cfg, k, s', 0);
  }

  /** From a pool with nothing to do, below its limit, to the most it ever counts. */
  lemma Overshot(cfg: Config, k: nat, s: State) returns (s': State)
    requires ValidConfig(cfg) && !NeverCrowded(cfg) && k >= 1 && Ready(cfg, k, s)
    requires s.current < cfg.maxWorkers && cfg.minWorkers < cfg.maxWorkers
    ensures Next(cfg, k, s, s') && Free(s'.callers) && Calm(s'.workers) && s'.current == cfg.maxWorkers + k - 1
  {
    hide Reachable, Crowded, NeverCrowded;
    var e;
    s', e := BusyFrom(cfg, k, s);
    s' := Grown(cfg, k, s', e, 0);
    s' := Overfilled(cfg, k, s', e);
  }

  // ---------- emptying it ----------

  lemma {:induction false} AllFinished(cfg: Config, k: nat, s: State, i: nat) returns (s': State)
    requires ValidConfig(cfg) && Going(cfg, k, s) && Calm(s.workers) && i <= |s.workers|
    requires forall w :: i <= w < |s.workers| ==> !s.workers[w].Holding?
    ensures Next(cfg, k, s, s') && s'.callers == s.callers && AtEase(s'.workers) && s'.current == s.current
    ensures |s'.workers| == |s.workers|
    decreases i
  {
    hide Reachable;
    s' := s;
    if i > 0 {
      if s.workers[i - 1].Holding? {
        s' := Finished(cfg, k, s, i - 1);
      }
      s' := AllFinished(cfg, k, s', i - 1);
    }
  }

  lemma {:induction false} QueueEmptied(cfg: Config, k: nat, s: State, w: nat) returns (s': State)
    requires ValidConfig(cfg) && Going(cfg, k, s) && AtEase(s.workers) && w < |s.workers| && s.workers[w].Waiting?
    ensures Next(cfg, k, s, s') && s'.callers == s.callers && s'.workers == s.workers && s'.current == s.current
    ensures s'.queue == []
    decreases |s.queue|
  {
    hide Reachable;
    s' := s;
    if s.queue != [] {
      s' := Taken(cfg, k, s, w);
      s' := Finished(cfg, k, s', w);
      assert s'.workers == s.workers;
      s' := QueueEmptied(cfg, k, s', w);
    }
  }

  /** The workers do all there is to do. */
  lemma Drained(cfg: Config, k: nat, s: State) returns (s': State)
    requires ValidConfig(cfg) && Going(cfg, k, s) && Free(s.callers) && Calm(s.workers) && s.current > 0
    ensures Next(cfg, k, s, s') && s'.callers == s.callers && s'.current == s.current
    ensures AtEase(s'.workers) && s'.queue == [] && |s'.workers| == |s.workers|
  {
    hide Reachable;
    s' := AllFinished(cfg, k, s, |s.workers|);
    Accounts(cfg, k, s');
    NoneBusy(s'.workers);
    var w := FindWaiting(s'.workers);
    s' := QueueEmptied(cfg, k, s', w);
  }

  /** Workers leave one after another until there is room for one more. */
  lemma {:induction false} Trimmed(cfg: Config, k: nat, s: State) returns (s': State)
    requires ValidConfig(cfg) && Going(cfg, k, s) && Free(s.callers) && AtEase(s.workers) && s.queue == []
    requires s.current >= cfg.maxWorkers - 1 && cfg.maxWorkers > cfg.minWorkers && cfg.maxWorkers >= 1
    ensures Next(cfg, k, s, s') && s'.callers == s.callers && AtEase(s'.workers) && s'.queue == []
    ensures s'.current == cfg.maxWorkers - 1
    decreases s.current
  {
    hide Reachable;
    s' := s;
    if s.current >= cfg.maxWorkers {
      Accounts(cfg, k, s);
      NoneBusy(s.workers);
      var w := FindWaiting(s.workers);
      s' := TimedOut(cfg, k, s, w);
      s' := Trimmed(cfg, k, s');
    }
  }

  // ---------- the manager ----------

  /** With nothing to do and two workers or more counted, the manager decides to count one off. */
  lemma Decided(cfg: Config, k: nat, s: State) returns (s': State)
    requires ValidConfig(cfg) && Going(cfg, k, s) && Free(s.callers) && AtEase(s.workers) && s.queue == []
    requires s.manager.Resting? && s.current >= 2 && s.current > cfg.minWorkers
    ensures Going(cfg, k, s') && s' == s.(manager := Shrinking)
  {
    Accounts(cfg, k, s);
    NoneBusy(s.workers);
    s' := Advance(cfg, k, s, SampleWorkers);
    s' := Advance(cfg, k, s', SampleActive);
    s' := Advance(cfg, k, s', SampleQueue);
  }

  /** Every worker looks at `currentWorkers` before any has left. */
  lemma {:induction false} AllTimedOut(cfg: Config, k: nat, s: State, i: nat) returns (s': State)
    requires ValidConfig(cfg) && Going(cfg, k, s) && s.current > cfg.minWorkers && i <= |s.workers|
    requires forall w :: 0 <= w < i ==> s.workers[w].Waiting? || s.workers[w].Exited?
    requires forall w :: i <= w < |s.workers| ==> s.workers[w].Exiting? || s.workers[w].Exited?
    ensures Next(cfg, k, s, s') && s' == s.(workers := s'.workers) && |s'.workers| == |s.workers|
    ensures forall w :: 0 <= w < |s'.workers| ==> s'.workers[w].Exiting? || s'.workers[w].Exited?
    decreases i
  {
    hide Reachable;
    s' := s;
    if i > 0 {
      if s.workers[i - 1].Waiting? {
        s' := Advance(cfg, k, s, Timeout(i - 1));
      }
      s' := AllTimedOut(cfg, k, s', i - 1);
    }
  }

  /** Then all of them leave. */
  lemma {:induction false} AllGone(cfg: Config, k: nat, s: State, i: nat) returns (s': State)
    requires ValidConfig(cfg) && Going(cfg, k, s) && i <= |s.workers|
    requires forall w :: 0 <= w < i ==> s.workers[w].Exiting? || s.workers[w].Exited?
    requires forall w :: i <= w < |s.workers| ==> s.workers[w].Exited?
    ensures Next(cfg, k, s, s') && s'.callers == s.callers && s'.queue == s.queue && |s'.workers| == |s.workers|
    ensures forall w :: 0 <= w < |s'.workers| ==> s'.workers[w].Exited?
    decreases i
  {
    hide Reachable;
    s' := s;
    if i > 0 {
      if s.workers[i - 1].Exiting? {
        s' := Advance(cfg, k, s, Exit(i - 1));
      }
      s' := AllGone(cfg, k, s', i - 1);
    }
  }

  lemma NobodyLeft(cfg: Config, k: nat, s: State)
    requires ValidConfig(cfg) && Going(cfg, k, s) && Free(s.callers)
    requires forall w :: 0 <= w < |s.workers| ==> s.workers[w].Exited?
    ensures Workers(s.workers, Live) == 0 && s.current == -(s.tokens as int) - One(s.manager.Notifying?)
  {
    Accounts(cfg, k, s);
    NobodyPlays(s.workers, Live);
  }

  // ---------- extreme states of a pool that can grow ----------

  /** Somebody to submit, room to grow, and a fill level that makes the pool grow. */
  predicate CanGrow(cfg: Config, k: nat)
    requires ValidConfig(cfg)
  {
    k >= 1 && InitialWorkers(cfg) < cfg.maxWorkers && !NeverCrowded(cfg)
  }

  lemma StartReady(cfg: Config, k: nat)
    requires ValidConfig(cfg)
    ensures Ready(cfg, k, Initial(cfg, k))
  {
    Started(cfg, k);
  }

  /** The most a pool that can grow ever counts. */
  lemma Fullest(cfg: Config, k: nat) returns (s: State)
    requires ValidConfig(cfg) && CanGrow(cfg, k)
    ensures Going(cfg, k, s) && Free(s.callers) && Calm(s.workers) && s.manager.Resting? && s.tokens == 0
    ensures s.current == cfg.maxWorkers + k - 1
  {
    StartReady(cfg, k);
    s := Overshot(cfg, k, Initial(cfg, k));
  }

  /** The manager counts a worker off just before all have gone. */
  lemma Drifted(cfg: Config, k: nat, s: State) returns (s': State)
    requires ValidConfig(cfg) && Going(cfg, k, s) && Free(s.callers) && Calm(s.workers)
    requires s.manager.Resting? && s.tokens == 0 && s.current >= 2 && s.current > cfg.minWorkers
    ensures Going(cfg, k, s') && |s'.workers| == |s.workers|
    ensures forall w :: 0 <= w < |s'.workers| ==> s'.workers[w].Exited?
    ensures Workers(s'.workers, Live) == 0 && s'.current == -1 && Free(s'.callers)
  {
    hide Reachable;
    s' := Drained(cfg, k, s);
    s' := Decided(cfg, k, s');
    s' := AllTimedOut(cfg, k, s', |s'.workers|);
    s' := Advance(cfg, k, s', Shrink);
    s' := AllGone(cfg, k, s', |s'.workers|);
    NobodyLeft(cfg, k, s');
  }

  /** A full pool in which every worker is about to leave accepts a task and needs no worker for it. */
  lemma Stranded(cfg: Config, k: nat, s: State) returns (s': State)
    requires ValidConfig(cfg) && Going(cfg, k, s) && Free(s.callers) && Calm(s.workers) && k >= 1
    requires s.current >= cfg.maxWorkers >= 1 && cfg.maxWorkers > cfg.minWorkers
    ensures Going(cfg, k, s') && Free(s'.callers) && s'.queue != [] && Workers(s'.workers, Live) == 0
  {
    hide Reachable, Crowded;
    s' := Drained(cfg, k, s);
    s' := AllTimedOut(cfg, k, s', |s'.workers|);
    s' := Submitted(cfg, k, s', 0);
    s' := Returned(cfg, k, s', 0);
    s' := AllGone(cfg, k, s', |s'.workers|);
    NobodyLeft(cfg, k, s');
  }

  /** Overfill, do all there is to do, let the manager count one off, and let workers leave. */
  lemma CountedOff(cfg: Config, k: nat, s: State) returns (s': State)
    requires ValidConfig(cfg) && CanGrow(cfg, k) && cfg.maxWorkers + k >= 3
    requires Ready(cfg, k, s) && s.current < cfg.maxWorkers && s.manager.Resting?
    ensures Ready(cfg, k, s') && s'.current == cfg.maxWorkers - 1
    ensures s'.manager.Notifying? && s'.tokens == s.tokens
  {
    hide Reachable, NeverCrowded;
    s' := Overshot(cfg, k, s);
    s' := Drained(cfg, k, s');
    s' := Decided(cfg, k, s');
    s' := Advance(cfg, k, s', Shrink);
    s' := Trimmed(cfg, k, s');
  }

  /** The manager counts off one worker after another, each time sending a token that nobody receives. */
  lemma {:induction false} TokensSent(cfg: Config, k: nat, n: nat) returns (s: State)
    requires ValidConfig(cfg) && CanGrow(cfg, k) && cfg.maxWorkers + k >= 3 && n <= cfg.maxWorkers
    ensures Ready(cfg, k, s) && s.current < cfg.maxWorkers && s.manager.Resting? && s.tokens == n
  {
    hide Reachable, NeverCrowded;
    if n == 0 {
      StartReady(cfg, k);
      s := Initial(cfg, k);
    } else {
      s := TokensSent(cfg, k, n - 1);
      s := CountedOff(cfg, k, s);
      s := Advance(cfg, k, s, Notify);
    }
  }

  /** The most workers a pool that can grow ever has alive: every token sent, the manager blocked on one more,
      and the counter at its highest. */
  lemma MostAlive(cfg: Config, k: nat) returns (s: State)
    requires ValidConfig(cfg) && CanGrow(cfg, k) && cfg.maxWorkers + k >= 3
    ensures Going(cfg, k, s) && Workers(s.workers, Live) == 2 * cfg.maxWorkers + k
  {
    hide Reachable, NeverCrowded;
    s := TokensSent(cfg, k, cfg.maxWorkers);
    s := CountedOff(cfg, k, s);
    s := Overshot(cfg, k, s);
    Accounts(cfg, k, s);
  }

  // ---------- stopping ----------

  /** Waiting workers leave a cancelled pool, whatever its counter says. */
  lemma {:induction false} AllLeft(cfg: Config, k: nat, s: State, i: nat) returns (s': State)
    requires ValidConfig(cfg) && Reachable(cfg, k, s) && s.cancelled && i <= |s.workers|
    requires forall w :: 0 <= w < i ==> s.workers[w].Waiting? || s.workers[w].Exited?
    requires forall w :: i <= w < |s.workers| ==> s.workers[w].Exited?
    ensures Reachable(cfg, k, s') && s' == s.(workers := s'.workers, current := s'.current)
    ensures |s'.workers| == |s.workers| && forall w :: 0 <= w < |s'.workers| ==> s'.workers[w].Exited?
    decreases i
  {
    hide Reachable;
    s' := s;
    if i > 0 {
      if s.workers[i - 1].Waiting? {
        s' := Advance(cfg, k, s, Leave(i - 1));
        s' := Advance(cfg, k, s', Exit(i - 1));
      }
      s' := AllLeft(cfg, k, s', i - 1);
    }
  }

  /** `Stop` on a pool with nothing to do: every worker and the manager end, and the queue is closed. */
  lemma ShutDown(cfg: Config, k: nat, s: State) returns (s': State)
    requires ValidConfig(cfg) && Ready(cfg, k, s) && s.manager.Resting?
    ensures Reachable(cfg, k, s') && s'.cancelled && s'.closed && s'.manager.Stopped?
    ensures |s'.workers| == |s.workers| && forall w :: 0 <= w < |s'.workers| ==> s'.workers[w].Exited?
  {
    hide Reachable;
    s' := Advance(cfg, k, s, Cancel);
    s' := AllLeft(cfg, k, s', |s'.workers|);
    s' := Advance(cfg, k, s', Close);
    s' := Advance(cfg, k, s', StopManager);
  }
}
