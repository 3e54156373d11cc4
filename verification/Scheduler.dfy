/**
 The scheduler as a transition system: the time dispatcher with its task maps and counters, the wheel
 under it, and the executions that the wheel launches and that put their own successors back on it.

 Every call of AddJob starts a chain.  A cyclic chain goes from one timeout to the next: the execution
 of a timeout, when it completes, loads and later inserts the following one.  Only the chain's first
 timeout uses the millisecond scale; all later ones use the second scale.
 */
module Scheduler {
  import opened Collections
  import opened Timing
  import W = Wheel

  /** How far the execution behind a timeout has come. */
  datatype Stage = Queued | Recorded | Dispatching | Completed | Finished | Failed | Panicked

  /** What the scheduler knows of the timeout with the same position in the wheel. */
  datatype Task = Task(chain: nat, stage: Stage)

  datatype Stats = Stats(added: nat, removed: nat, executed: nat, completed: nat, failed: nat)

  /** `chains` lists the jobs of all AddJob calls; `adding` is the call that has loaded its tick but not
      inserted yet; `panicked` counts executions that ended in a recovered panic. */
  datatype Sched = Sched(
    wheel: W.Wheel,
    tickDuration: int,
    tasks: seq<Task>,
    chains: seq<Job>,
    cyclicTasks: map<int, nat>,
    tempTasks: map<int, nat>,
    executions: map<int, nat>,
    adding: Option<nat>,
    stats: Stats,
    panicked: nat)

  datatype Action =
    | BeginAdd(job: Job)
    | FinishAdd
    | Remove(jobId: int)
    | Advance
    | Scan
    | Record(id: nat)
    | Note(id: nat)
    | Complete(id: nat)
    | Fail(id: nat)
    | Panic(id: nat)
    | BeginReschedule(id: nat)
    | FinishReschedule(id: nat)
    | Stop
    | Halt

  function Initial(size: nat, tickDuration: int): Sched {
    Sched(W.Initial(size), tickDuration, [], [], map[], map[], map[], None, Stats(0, 0, 0, 0, 0), 0)
  }

  // ---------------------------------------------------------------- steps

  /** Every task has a timeout and a chain, and the stored ids name timeouts. */
  predicate Fits(s: Sched) {
    && s.tickDuration > 0 && |s.wheel.buckets| == s.wheel.size > 0 && s.wheel.tick >= 0
    && |s.tasks| == |s.wheel.nodes|
    && (forall i :: 0 <= i < |s.tasks| ==> s.tasks[i].chain < |s.chains|)
    && (s.adding.Some? ==> s.adding.value < |s.tasks|)
    && (forall k :: k in s.cyclicTasks ==> s.cyclicTasks[k] < |s.tasks|)
    && (forall k :: k in s.tempTasks ==> s.tempTasks[k] < |s.tasks|)
  }

  function JobOf(s: Sched, id: nat): Job
    requires Fits(s) && id < |s.tasks|
  {
    s.chains[s.tasks[id].chain]
  }

  predicate Placed(s: Sched, id: nat) {
    id < |s.wheel.nodes| && s.wheel.nodes[id].placed.Some?
  }

  predicate Launched(s: Sched, id: nat) {
    id in W.FiredIds(s.wheel.fired)
  }

  predicate At(s: Sched, id: nat, stage: Stage) {
    id < |s.tasks| && s.tasks[id].stage == stage
  }

  predicate Enabled(s: Sched, a: Action)
    requires Fits(s)
  {
    match a
    case BeginAdd(job) => s.adding.None? && !s.wheel.stopped
    case FinishAdd => s.adding.Some? && !Placed(s, s.adding.value)
    case Remove(jobId) => s.adding.None?
    case Advance => true
    case Scan => true
    case Record(id) => At(s, id, Queued) && Launched(s, id)
    case Note(id) => At(s, id, Recorded)
    case Complete(id) => At(s, id, Dispatching)
    case Fail(id) => At(s, id, Dispatching)
    case Panic(id) => At(s, id, Dispatching)
    case BeginReschedule(id) => At(s, id, Completed)
    case FinishReschedule(id) => id < |s.tasks| && !Placed(s, id) && s.adding != Some(id)
    case Stop => s.adding.None?
    case Halt => true
  }

  function ToStage(s: Sched, id: nat, stage: Stage): Sched
    requires id < |s.tasks|
  {
    s.(tasks := s.tasks[id := s.tasks[id].(stage := stage)])
  }

  /** Loads the tick for a new timeout of the given chain. */
  function LoadTask(s: Sched, chain: nat, delay: int): Sched
    requires s.tickDuration > 0
  {
    s.(wheel := W.Apply(s.wheel, W.Load(TruncDiv(delay, s.tickDuration))),
       tasks := s.tasks + [Task(chain, Queued)])
  }

  function InsertTask(s: Sched, id: nat): Sched {
    s.(wheel := W.Apply(s.wheel, W.Insert(id)))
  }

  function CancelTask(s: Sched, id: nat): Sched {
    s.(wheel := W.Apply(s.wheel, W.Cancel(id)))
  }

  /** A job is looked up among the cyclic tasks first; its stored timeout is cancelled and forgotten. */
  function RemoveJob(s: Sched, jobId: int): Sched {
    var s0 := s.(stats := s.stats.(removed := s.stats.removed + 1));
    if jobId in s.cyclicTasks then
      CancelTask(s0, s.cyclicTasks[jobId]).(cyclicTasks := s.cyclicTasks - {jobId}, executions := s.executions - {jobId})
    else if jobId in s.tempTasks then
      CancelTask(s0, s.tempTasks[jobId]).(tempTasks := s.tempTasks - {jobId}, executions := s.executions - {jobId})
    else s0
  }

  function Step(s: Sched, a: Action): Sched
    requires Fits(s) && Enabled(s, a)
  {
    match a
    case BeginAdd(job) =>
      LoadTask(s, |s.chains|, FirstDelay(job))
        .(chains := s.chains + [job], adding := Some(|s.tasks|), stats := s.stats.(added := s.stats.added + 1))
    case FinishAdd =>
      var job := JobOf(s, s.adding.value);
      var s1 := InsertTask(s, s.adding.value).(adding := None, executions := s.executions[job.id := 0]);
      if job.isCyclic then s1.(cyclicTasks := s.cyclicTasks[job.id := s.adding.value])
      else s1.(tempTasks := s.tempTasks[job.id := s.adding.value])
    case Remove(jobId) => RemoveJob(s, jobId)
    case Advance => s.(wheel := W.Apply(s.wheel, W.Advance))
    case Scan => s.(wheel := W.Apply(s.wheel, W.Scan))
    case Record(id) => ToStage(s, id, Recorded).(stats := s.stats.(executed := s.stats.executed + 1))
    case Note(id) =>
      var jobId := JobOf(s, id).id;
      var s1 := ToStage(s, id, Dispatching);
      if jobId in s.executions then s1.(executions := s.executions[jobId := s.executions[jobId] + 1]) else s1
    case Complete(id) =>
      ToStage(s, id, if Repeats(JobOf(s, id)) then Completed else Finished)
        .(stats := s.stats.(completed := s.stats.completed + 1))
    case Fail(id) => ToStage(s, id, Failed).(stats := s.stats.(failed := s.stats.failed + 1))
    case Panic(id) => ToStage(s, id, Panicked).(panicked := s.panicked + 1)
    case BeginReschedule(id) =>
      var s1 := ToStage(s, id, Finished);
      if s.wheel.stopped then s1 else LoadTask(s1, s.tasks[id].chain, NextDelay(JobOf(s, id)))
    case FinishReschedule(id) =>
      InsertTask(s, id).(cyclicTasks := s.cyclicTasks[JobOf(s, id).id := id])
    case Stop =>
      var stored := ValuesOf(s.cyclicTasks) + ValuesOf(s.tempTasks);
      s.(wheel := s.wheel.(nodes := W.Cancelled(s.wheel.nodes, stored), stopped := true),
         cyclicTasks := map[], tempTasks := map[], executions := map[])
    case Halt => s.(wheel := W.Apply(s.wheel, W.Halt))
  }

  function Apply(s: Sched, a: Action): Sched {
    if Fits(s) && Enabled(s, a) then Step(s, a) else s
  }

  function Run(s: Sched, actions: seq<Action>): Sched {
    if actions == [] then s else Apply(Run(s, actions[..|actions| - 1]), actions[|actions| - 1])
  }

  // ---------------------------------------------------------------- the invariant

  /** Ticks between the launch of an execution and the target of its successor, at the least. */
  function Gap(s: Sched, chain: nat): int
    requires s.tickDuration > 0 && chain < |s.chains|
  {
    TruncDiv(NextDelay(s.chains[chain]), s.tickDuration)
  }

  ghost predicate TaskOk(s: Sched, i: nat)
    requires Fits(s) && i < |s.tasks|
  {
    && (s.tasks[i].stage != Queued ==> Launched(s, i))
    && (s.tasks[i].stage == Completed ==> Repeats(JobOf(s, i)))
    && (!Placed(s, i) && s.adding != Some(i) ==> Repeats(JobOf(s, i)))
  }

  /** An earlier timeout of a chain is finished, and the later one aims a full interval past its launch. */
  ghost predicate InOrder(s: Sched, i: nat, j: nat)
    requires Fits(s) && i < j < |s.tasks|
  {
    s.tasks[i].chain == s.tasks[j].chain ==>
      && s.tasks[i].stage == Finished && Launched(s, i) && Placed(s, i)
      && Repeats(JobOf(s, i))
      && s.wheel.nodes[j].target >= W.Due(s.wheel, i) + Gap(s, s.tasks[i].chain)
  }

  ghost predicate StoredOk(s: Sched, jobId: int, id: nat, cyclic: bool)
    requires Fits(s) && id < |s.tasks|
  {
    Placed(s, id) && JobOf(s, id).id == jobId && JobOf(s, id).isCyclic == cyclic
  }

  ghost predicate TasksOk(s: Sched)
    requires Fits(s)
  {
    && (s.adding.Some? ==> !Placed(s, s.adding.value))
    && forall i :: 0 <= i < |s.tasks| ==> TaskOk(s, i)
  }

  ghost predicate ChainsInOrder(s: Sched)
    requires Fits(s)
  {
    forall i, j :: 0 <= i < j < |s.tasks| ==> InOrder(s, i, j)
  }

  ghost predicate MapsOk(s: Sched)
    requires Fits(s)
  {
    && (forall k :: k in s.cyclicTasks ==> StoredOk(s, k, s.cyclicTasks[k], true))
    && (forall k :: k in s.tempTasks ==> StoredOk(s, k, s.tempTasks[k], false))
    && s.executions.Keys <= s.cyclicTasks.Keys + s.tempTasks.Keys
  }

  ghost predicate Inv(s: Sched) {
    && Fits(s) && W.Inv(s.wheel)
    && TasksOk(s) && ChainsInOrder(s) && MapsOk(s)
    && s.stats.added == |s.chains|
  }

  lemma LaunchedIsDue(s: Sched, id: nat)
    requires W.Inv(s.wheel) && Launched(s, id)
    ensures Placed(s, id) && s.wheel.nodes[id].target <= W.Due(s.wheel, id) <= s.wheel.scanned
  {
    var k :| 0 <= k < |s.wheel.fired| && W.FiredIds(s.wheel.fired)[k] == id;
    assert W.FiredOnDue(s.wheel, s.wheel.fired[k]);
    var node := s.wheel.nodes[id];
    W.DueTickIsFirst(s.wheel.size, node.target, node.placed.value);
  }

  lemma CancellingKeepsInv(w: W.Wheel, ids: set<nat>)
    requires W.Inv(w)
    ensures W.Inv(w.(nodes := W.Cancelled(w.nodes, ids), stopped := true))
  {
    var w' := w.(nodes := W.Cancelled(w.nodes, ids), stopped := true);
    forall b, k | 0 <= b < w.size && 0 <= k < |w'.buckets[b]| ensures W.Waits(w', b, w'.buckets[b][k]) {
      assert W.Waits(w, b, w.buckets[b][k]);
    }
    forall k | 0 <= k < |w.fired| ensures W.FiredOnDue(w', w'.fired[k]) {
      assert W.FiredOnDue(w, w.fired[k]);
    }
    forall k | 0 <= k < |w.dropped| ensures W.Dropped(w', w'.dropped[k]) {
      assert W.Dropped(w, w.dropped[k]);
    }
    assert W.PlacedIds(w'.nodes) == W.PlacedIds(w.nodes);
  }

  lemma StepKeepsWheelInv(s: Sched, a: Action)
    requires Fits(s) && Enabled(s, a) && W.Inv(s.wheel)
    ensures W.Inv(Step(s, a).wheel)
  {
    match a
    case BeginAdd(job) => W.StepKeepsInv(s.wheel, W.Load(TruncDiv(FirstDelay(job), s.tickDuration)));
    case FinishAdd => W.StepKeepsInv(s.wheel, W.Insert(s.adding.value));
    case Remove(jobId) =>
      if jobId in s.cyclicTasks {
        W.StepKeepsInv(s.wheel, W.Cancel(s.cyclicTasks[jobId]));
      } else if jobId in s.tempTasks {
        W.StepKeepsInv(s.wheel, W.Cancel(s.tempTasks[jobId]));
      }
    case Advance => W.StepKeepsInv(s.wheel, W.Advance);
    case Scan => W.StepKeepsInv(s.wheel, W.Scan);
    case BeginReschedule(id) =>
      W.StepKeepsInv(s.wheel, W.Load(TruncDiv(NextDelay(JobOf(s, id)), s.tickDuration)));
    case FinishReschedule(id) => W.StepKeepsInv(s.wheel, W.Insert(id));
    case Stop => CancellingKeepsInv(s.wheel, ValuesOf(s.cyclicTasks) + ValuesOf(s.tempTasks));
    case Halt => W.StepKeepsInv(s.wheel, W.Halt);
    case _ =>
  }

  /** What no step takes back. */
  ghost predicate WheelGrows(w: W.Wheel, w': W.Wheel) {
    && |w.nodes| <= |w'.nodes| && w'.size == w.size && w.scanned <= w'.scanned
    && (forall i :: 0 <= i < |w.nodes| ==>
          && w'.nodes[i].target == w.nodes[i].target
          && (w.nodes[i].placed.Some? ==> w'.nodes[i].placed == w.nodes[i].placed)
          && (w.nodes[i].cancelled ==> w'.nodes[i].cancelled))
    && (forall id: nat :: id in W.FiredIds(w.fired) ==> id in W.FiredIds(w'.fired))
  }

  ghost predicate Grows(s: Sched, s': Sched) {
    && WheelGrows(s.wheel, s'.wheel)
    && s.chains <= s'.chains && s'.tickDuration == s.tickDuration
    && |s.tasks| <= |s'.tasks|
    && (forall i :: 0 <= i < |s.tasks| ==> s'.tasks[i].chain == s.tasks[i].chain)
  }

  lemma WheelStepGrows(w: W.Wheel, a: W.Action)
    ensures WheelGrows(w, W.Apply(w, a))
  {
    if a.Scan? && W.Enabled(w, a) {
      W.FiredIdsAppend(w.fired, W.Sift(w.nodes, w.buckets[w.tick % w.size], w.tick, W.Fire), w.tick);
    }
  }

  lemma LoadGrows(s: Sched, a: Action)
    requires Fits(s) && Enabled(s, a) && (a.BeginAdd? || a.BeginReschedule?)
    ensures Grows(s, Step(s, a))
  {
    var delay := if a.BeginAdd? then FirstDelay(a.job) else NextDelay(JobOf(s, a.id));
    WheelStepGrows(s.wheel, W.Load(TruncDiv(delay, s.tickDuration)));
  }

  lemma InsertGrows(s: Sched, a: Action)
    requires Fits(s) && Enabled(s, a) && (a.FinishAdd? || a.FinishReschedule?)
    ensures Grows(s, Step(s, a))
  {
    WheelStepGrows(s.wheel, W.Insert(if a.FinishAdd? then s.adding.value else a.id));
  }

  lemma RemoveGrows(s: Sched, jobId: int)
    requires Fits(s)
    ensures Grows(s, RemoveJob(s, jobId))
  {
    if jobId in s.cyclicTasks {
      WheelStepGrows(s.wheel, W.Cancel(s.cyclicTasks[jobId]));
    } else if jobId in s.tempTasks {
      WheelStepGrows(s.wheel, W.Cancel(s.tempTasks[jobId]));
    }
  }

  lemma StepGrows(s: Sched, a: Action)
    requires Fits(s) && Enabled(s, a)
    ensures Grows(s, Step(s, a))
  {
    match a
    case BeginAdd(_) => LoadGrows(s, a);
    case BeginReschedule(_) => LoadGrows(s, a);
    case FinishAdd => InsertGrows(s, a);
    case FinishReschedule(_) => InsertGrows(s, a);
    case Remove(jobId) => RemoveGrows(s, jobId);
    case Advance => WheelStepGrows(s.wheel, W.Advance);
    case Scan => WheelStepGrows(s.wheel, W.Scan);
    case _ =>
  }

  /** Only loading changes the number of timeouts, and no step changes the number of buckets. */
  lemma WheelStepFits(w: W.Wheel, a: W.Action)
    requires |w.buckets| == w.size > 0 && w.tick >= 0
    ensures var w' := W.Apply(w, a);
      && |w'.buckets| == w'.size > 0 && w'.tick >= 0
      && |w'.nodes| == |w.nodes| + (if a.Load? && W.Enabled(w, a) then 1 else 0)
  {
  }

  lemma BeginAddKeepsFits(s: Sched, job: Job)
    requires Fits(s) && Enabled(s, BeginAdd(job))
    ensures Fits(Step(s, BeginAdd(job)))
  {
    WheelStepFits(s.wheel, W.Load(TruncDiv(FirstDelay(job), s.tickDuration)));
  }

  lemma BeginRescheduleKeepsFits(s: Sched, id: nat)
    requires Fits(s) && Enabled(s, BeginReschedule(id)) && Repeats(JobOf(s, id))
    ensures Fits(Step(s, BeginReschedule(id)))
  {
    WheelStepFits(s.wheel, W.Load(TruncDiv(NextDelay(JobOf(s, id)), s.tickDuration)));
  }

  lemma RemoveKeepsFits(s: Sched, jobId: int)
    requires Fits(s)
    ensures Fits(RemoveJob(s, jobId))
  {
    if jobId in s.cyclicTasks {
      WheelStepFits(s.wheel, W.Cancel(s.cyclicTasks[jobId]));
    } else if jobId in s.tempTasks {
      WheelStepFits(s.wheel, W.Cancel(s.tempTasks[jobId]));
    }
  }

  lemma InsertKeepsFits(s: Sched, a: Action)
    requires Fits(s) && Enabled(s, a) && (a.FinishAdd? || a.FinishReschedule?)
    ensures Fits(Step(s, a))
  {
    WheelStepFits(s.wheel, W.Insert(if a.FinishAdd? then s.adding.value else a.id));
  }

  lemma OtherStepKeepsFits(s: Sched, a: Action)
    requires Fits(s) && Enabled(s, a)
    requires !a.BeginAdd? && !a.BeginReschedule? && !a.FinishAdd? && !a.FinishReschedule? && !a.Remove?
    ensures Fits(Step(s, a))
  {
    match a
    case Advance => WheelStepFits(s.wheel, W.Advance);
    case Scan => WheelStepFits(s.wheel, W.Scan);
    case Halt => WheelStepFits(s.wheel, W.Halt);
    case _ =>
  }

  lemma StepKeepsFits(s: Sched, a: Action)
    requires Fits(s) && Enabled(s, a)
    requires a.BeginReschedule? ==> Repeats(JobOf(s, a.id))
    ensures Fits(Step(s, a))
  {
    match a
    case BeginAdd(job) => BeginAddKeepsFits(s, job);
    case BeginReschedule(id) => BeginRescheduleKeepsFits(s, id);
    case FinishAdd => InsertKeepsFits(s, a);
    case FinishReschedule(_) => InsertKeepsFits(s, a);
    case Remove(jobId) => RemoveKeepsFits(s, jobId);
    case _ => OtherStepKeepsFits(s, a);
  }

  lemma TaskStaysLaunched(s: Sched, a: Action, i: nat)
    requires Fits(s) && Enabled(s, a) && i < |s.tasks| && (s.tasks[i].stage != Queued ==> Launched(s, i))
    requires Fits(Step(s, a)) && Grows(s, Step(s, a))
    ensures Step(s, a).tasks[i].stage != Queued ==> Launched(Step(s, a), i)
  {
  }

  lemma TaskStaysRepeating(s: Sched, a: Action, i: nat)
    requires Fits(s) && Enabled(s, a) && i < |s.tasks| && (s.tasks[i].stage == Completed ==> Repeats(JobOf(s, i)))
    requires Fits(Step(s, a)) && Grows(s, Step(s, a))
    ensures Step(s, a).tasks[i].stage == Completed ==> Repeats(JobOf(Step(s, a), i))
  {
  }

  lemma TaskStaysAwaited(s: Sched, a: Action, i: nat)
    requires Fits(s) && Enabled(s, a) && i < |s.tasks|
    requires !Placed(s, i) && s.adding != Some(i) ==> Repeats(JobOf(s, i))
    requires Fits(Step(s, a)) && Grows(s, Step(s, a))
    ensures !Placed(Step(s, a), i) && Step(s, a).adding != Some(i) ==> Repeats(JobOf(Step(s, a), i))
  {
  }

  lemma TaskStaysOk(s: Sched, a: Action, i: nat)
    requires Fits(s) && Enabled(s, a) && i < |s.tasks| && TaskOk(s, i)
    requires Fits(Step(s, a)) && Grows(s, Step(s, a))
    ensures TaskOk(Step(s, a), i)
  {
    TaskStaysLaunched(s, a, i);
    TaskStaysRepeating(s, a, i);
    TaskStaysAwaited(s, a, i);
  }

  lemma NewTaskIsOk(s: Sched, a: Action, i: nat)
    requires Fits(s) && Enabled(s, a) && Fits(Step(s, a)) && |s.tasks| <= i < |Step(s, a).tasks|
    requires a.BeginReschedule? ==> Repeats(JobOf(s, a.id))
    ensures TaskOk(Step(s, a), i)
  {
  }

  lemma AddingStaysUnplaced(s: Sched, a: Action)
    requires Fits(s) && Enabled(s, a) && (s.adding.Some? ==> !Placed(s, s.adding.value))
    ensures var s' := Step(s, a); s'.adding.Some? ==> !Placed(s', s'.adding.value)
  {
  }

  lemma StepKeepsTasks(s: Sched, a: Action)
    requires Fits(s) && Enabled(s, a) && TasksOk(s)
    requires Fits(Step(s, a)) && Grows(s, Step(s, a))
    ensures TasksOk(Step(s, a))
  {
    AddingStaysUnplaced(s, a);
    if a.BeginReschedule? {
      assert TaskOk(s, a.id);
    }
    forall i: nat | i < |Step(s, a).tasks| ensures TaskOk(Step(s, a), i) {
      if i < |s.tasks| {
        TaskStaysOk(s, a, i);
      } else {
        NewTaskIsOk(s, a, i);
      }
    }
  }

  /** Facts about the launch behind a reschedule, as the wheel's own invariant gives them. */
  ghost predicate LaunchedBefore(s: Sched, id: nat) {
    && Placed(s, id) && s.wheel.size > 0 && Launched(s, id)
    && s.wheel.nodes[id].target <= W.Due(s.wheel, id) <= s.wheel.tick
  }

  lemma StepKeepsOrder(s: Sched, a: Action, i: nat, j: nat)
    requires Fits(s) && Enabled(s, a)
    requires Fits(Step(s, a)) && Grows(s, Step(s, a)) && i < j < |s.tasks| && InOrder(s, i, j)
    ensures InOrder(Step(s, a), i, j)
  {
  }

  /** The timeout that a step loads comes after everything its chain had before. */
  lemma LoadedInOrder(s: Sched, a: Action, i: nat)
    requires Fits(s) && Enabled(s, a) && (a.BeginAdd? || a.BeginReschedule?)
    requires a.BeginReschedule? ==> LaunchedBefore(s, a.id) && Repeats(JobOf(s, a.id))
    requires a.BeginReschedule? && i < a.id ==> InOrder(s, i, a.id)
    requires a.BeginReschedule? && a.id < i < |s.tasks| ==> InOrder(s, a.id, i)
    requires Fits(Step(s, a)) && Grows(s, Step(s, a)) && i < |s.tasks| < |Step(s, a).tasks|
    ensures InOrder(Step(s, a), i, |s.tasks|)
  {
    if a.BeginReschedule? && s.tasks[i].chain == s.tasks[a.id].chain {
      SuccessorInOrder(s, a.id, i);
    }
  }

  lemma SuccessorInOrder(s: Sched, id: nat, i: nat)
    requires Fits(s) && At(s, id, Completed) && LaunchedBefore(s, id) && Repeats(JobOf(s, id))
    requires i < |s.tasks| && s.tasks[i].chain == s.tasks[id].chain
    requires (i < id ==> InOrder(s, i, id)) && (id < i ==> InOrder(s, id, i))
    requires var s' := Step(s, BeginReschedule(id)); Fits(s') && Grows(s, s') && |s.tasks| < |s'.tasks|
    ensures InOrder(Step(s, BeginReschedule(id)), i, |s.tasks|)
  {
    var s' := Step(s, BeginReschedule(id));
    SuccessorTarget(s, id);
    assert s'.tasks[|s.tasks|].chain == s.tasks[id].chain && s'.tasks[id].stage == Finished;
    assert W.Due(s'.wheel, i) == W.Due(s.wheel, i);
  }

  lemma SuccessorTarget(s: Sched, id: nat)
    requires Fits(s) && At(s, id, Completed) && Repeats(JobOf(s, id))
    requires var s' := Step(s, BeginReschedule(id)); Fits(s') && Grows(s, s') && |s.tasks| < |s'.tasks|
    ensures var s' := Step(s, BeginReschedule(id));
      && s'.wheel.nodes[|s.tasks|].target == s.wheel.tick + Gap(s, s.tasks[id].chain)
      && 0 <= Gap(s', s.tasks[id].chain) == Gap(s, s.tasks[id].chain)
  {
    TruncDivOfNonNegative(NextDelay(JobOf(s, id)), s.tickDuration);
  }

  lemma StepKeepsChains(s: Sched, a: Action)
    requires Fits(s) && Enabled(s, a) && ChainsInOrder(s)
    requires a.BeginReschedule? ==> LaunchedBefore(s, a.id) && Repeats(JobOf(s, a.id))
    requires Fits(Step(s, a)) && Grows(s, Step(s, a))
    ensures ChainsInOrder(Step(s, a))
  {
    OnlyLoadsAdd(s, a);
    forall i: nat, j: nat | i < j < |Step(s, a).tasks| ensures InOrder(Step(s, a), i, j) {
      if j < |s.tasks| {
        StepKeepsOrder(s, a, i, j);
      } else {
        LoadedInOrder(s, a, i);
      }
    }
  }

  lemma OnlyLoadsAdd(s: Sched, a: Action)
    requires Fits(s) && Enabled(s, a)
    ensures |Step(s, a).tasks| <= |s.tasks| + (if a.BeginAdd? || a.BeginReschedule? then 1 else 0)
  {
  }

  lemma StoredStaysOk(s: Sched, s': Sched, k: int, id: nat, cyclic: bool)
    requires Fits(s) && Fits(s') && Grows(s, s') && id < |s.tasks| && StoredOk(s, k, id, cyclic)
    ensures StoredOk(s', k, id, cyclic)
  {
  }

  /** The step puts the timeout on the wheel and into a task map. */
  predicate Stores(s: Sched, a: Action, id: nat) {
    (a == FinishAdd && s.adding == Some(id)) || a == FinishReschedule(id)
  }

  lemma StoredIsPlaced(s: Sched, a: Action, id: nat)
    requires Fits(s) && Enabled(s, a) && Stores(s, a, id)
    ensures Placed(Step(s, a), id)
  {
  }

  lemma StepStores(s: Sched, a: Action, k: int)
    requires Fits(s) && Enabled(s, a)
    ensures k in Step(s, a).cyclicTasks ==>
      var id := Step(s, a).cyclicTasks[k];
      || (k in s.cyclicTasks && id == s.cyclicTasks[k])
      || (id < |s.tasks| && Stores(s, a, id) && JobOf(s, id).id == k && (a.FinishAdd? ==> JobOf(s, id).isCyclic))
    ensures k in Step(s, a).tempTasks ==>
      var id := Step(s, a).tempTasks[k];
      || (k in s.tempTasks && id == s.tempTasks[k])
      || (id < |s.tasks| && Stores(s, a, id) && JobOf(s, id).id == k && !JobOf(s, id).isCyclic)
  {
  }

  lemma StepKeepsCyclic(s: Sched, a: Action, k: int)
    requires Fits(s) && Enabled(s, a) && TasksOk(s) && MapsOk(s)
    requires Fits(Step(s, a)) && Grows(s, Step(s, a)) && k in Step(s, a).cyclicTasks
    ensures StoredOk(Step(s, a), k, Step(s, a).cyclicTasks[k], true)
  {
    var id := Step(s, a).cyclicTasks[k];
    StepStores(s, a, k);
    if k in s.cyclicTasks && id == s.cyclicTasks[k] {
      StoredStaysOk(s, Step(s, a), k, id, true);
    } else {
      assert TaskOk(s, id);
      StoredIsPlaced(s, a, id);
    }
  }

  lemma StepKeepsTemp(s: Sched, a: Action, k: int)
    requires Fits(s) && Enabled(s, a) && MapsOk(s)
    requires Fits(Step(s, a)) && Grows(s, Step(s, a)) && k in Step(s, a).tempTasks
    ensures StoredOk(Step(s, a), k, Step(s, a).tempTasks[k], false)
  {
    var id := Step(s, a).tempTasks[k];
    StepStores(s, a, k);
    if k in s.tempTasks && id == s.tempTasks[k] {
      StoredStaysOk(s, Step(s, a), k, id, false);
    } else {
      StoredIsPlaced(s, a, id);
    }
  }

  lemma StepKeepsExecutions(s: Sched, a: Action)
    requires Fits(s) && Enabled(s, a) && s.executions.Keys <= s.cyclicTasks.Keys + s.tempTasks.Keys
    ensures var s' := Step(s, a); s'.executions.Keys <= s'.cyclicTasks.Keys + s'.tempTasks.Keys
  {
  }

  lemma StepKeepsMaps(s: Sched, a: Action)
    requires Fits(s) && Enabled(s, a) && TasksOk(s) && MapsOk(s)
    requires Fits(Step(s, a)) && Grows(s, Step(s, a))
    ensures MapsOk(Step(s, a))
  {
    var s' := Step(s, a);
    StepKeepsExecutions(s, a);
    forall k | k in s'.cyclicTasks ensures StoredOk(s', k, s'.cyclicTasks[k], true) {
      StepKeepsCyclic(s, a, k);
    }
    forall k | k in s'.tempTasks ensures StoredOk(s', k, s'.tempTasks[k], false) {
      StepKeepsTemp(s, a, k);
    }
  }

  /** What a step may rely on before anything else is shown. */
  lemma StepFrame(s: Sched, a: Action)
    requires Fits(s) && W.Inv(s.wheel) && TasksOk(s) && Enabled(s, a)
    ensures Fits(Step(s, a)) && Grows(s, Step(s, a)) && W.Inv(Step(s, a).wheel)
    ensures a.BeginReschedule? ==> LaunchedBefore(s, a.id) && Repeats(JobOf(s, a.id))
  {
    if a.BeginReschedule? {
      assert TaskOk(s, a.id);
      LaunchedIsDue(s, a.id);
    }
    StepKeepsFits(s, a);
    StepGrows(s, a);
    StepKeepsWheelInv(s, a);
  }

  lemma AddedKeepsCount(s: Sched, a: Action)
    requires Fits(s) && Enabled(s, a) && s.stats.added == |s.chains|
    ensures Step(s, a).stats.added == |Step(s, a).chains|
  {
  }

  lemma StepKeepsInv(s: Sched, a: Action)
    requires Inv(s)
    ensures Inv(Apply(s, a))
  {
    if Enabled(s, a) {
      StepFrame(s, a);
      StepKeepsTasks(s, a);
      StepKeepsMaps(s, a);
      StepKeepsChains(s, a);
      AddedKeepsCount(s, a);
    }
  }

  lemma InitialInv(size: nat, tickDuration: int)
    requires size > 0 && tickDuration > 0
    ensures Inv(Initial(size, tickDuration))
  {
    W.InitialInv(size);
  }

  lemma {:induction false} RunKeepsInv(s: Sched, actions: seq<Action>)
    requires Inv(s)
    ensures Inv(Run(s, actions))
  {
    if actions != [] {
      RunKeepsInv(s, actions[..|actions| - 1]);
      StepKeepsInv(Run(s, actions[..|actions| - 1]), actions[|actions| - 1]);
    }
  }
}
