/** The job server's registry on top of the scheduler, and the counters. */
module Registry {
  import opened Collections
  import opened Timing
  import opened Scheduler
  import opened SchedulerRuns
  import opened SchedulerSafety

  /** An add or remove call of the server, in the order in which the calls held its lock. */
  datatype Call = Added(job: Job) | Removed(jobId: int)

  datatype Server = Server(sched: Sched, running: map<int, Job>, calls: seq<Call>)

  function ServerStep(v: Server, a: Action): Server {
    if !(Fits(v.sched) && Enabled(v.sched, a)) then v else
      var sched := Step(v.sched, a);
      match a
      case FinishAdd =>
        var job := JobOf(v.sched, v.sched.adding.value);
        Server(sched, v.running[job.id := job], v.calls + [Added(job)])
      case Remove(jobId) => Server(sched, v.running - {jobId}, v.calls + [Removed(jobId)])
      case _ => v.(sched := sched)
  }

  function ServerRun(v: Server, actions: seq<Action>): Server {
    if actions == [] then v else ServerStep(ServerRun(v, actions[..|actions| - 1]), actions[|actions| - 1])
  }

  function ServerInitial(size: nat, tickDuration: int): Server {
    Server(Initial(size, tickDuration), map[], [])
  }

  // ---------------------------------------------------------------- counters

  ghost function InStage(s: Sched, stage: Stage): set<nat> {
    set i: nat | i < |s.tasks| && s.tasks[i].stage == stage
  }

  ghost predicate Counted(s: Sched) {
    && s.stats.executed
         == s.stats.completed + s.stats.failed + s.panicked + |InStage(s, Recorded)| + |InStage(s, Dispatching)|
    && Sum(s.executions) + |InStage(s, Recorded)| <= s.stats.executed
  }

  /** Moving one task leaves one stage smaller, another larger, and the rest alone. */
  lemma MoveCounts(s: Sched, id: nat, stage: Stage, s': Sched)
    requires id < |s.tasks| && s'.tasks == s.tasks[id := s.tasks[id].(stage := stage)] && s.tasks[id].stage != stage
    ensures |InStage(s', stage)| == |InStage(s, stage)| + 1
    ensures |InStage(s', s.tasks[id].stage)| == |InStage(s, s.tasks[id].stage)| - 1
    ensures forall other: Stage :: other != stage && other != s.tasks[id].stage ==> InStage(s', other) == InStage(s, other)
  {
    assert InStage(s', stage) == InStage(s, stage) + {id};
    assert InStage(s', s.tasks[id].stage) == InStage(s, s.tasks[id].stage) - {id};
    forall other: Stage | other != stage && other != s.tasks[id].stage ensures InStage(s', other) == InStage(s, other) {
    }
  }

  lemma StageMoveKeepsCounted(s: Sched, a: Action)
    requires Fits(s) && Enabled(s, a) && Counted(s) && (a.Record? || a.Note? || a.Complete? || a.Fail? || a.Panic?)
    ensures Counted(Step(s, a))
  {
    var s' := Step(s, a);
    var stage := s'.tasks[a.id].stage;
    MoveCounts(s, a.id, stage, s');
    if a.Note? && JobOf(s, a.id).id in s.executions {
      SumUpdate(s.executions, JobOf(s, a.id).id, s'.executions[JobOf(s, a.id).id]);
      SumSplit(s.executions, JobOf(s, a.id).id);
    }
  }

  lemma LoadKeepsCounted(s: Sched, a: Action)
    requires Fits(s) && Enabled(s, a) && Counted(s) && (a.BeginAdd? || a.BeginReschedule?)
    ensures Counted(Step(s, a))
  {
    var s' := Step(s, a);
    assert InStage(s', Recorded) == InStage(s, Recorded);
    assert InStage(s', Dispatching) == InStage(s, Dispatching);
  }

  lemma OtherKeepsCounted(s: Sched, a: Action)
    requires Fits(s) && Enabled(s, a) && Counted(s)
    requires a.FinishAdd? || a.FinishReschedule? || a.Remove? || a.Advance? || a.Scan? || a.Stop? || a.Halt?
    ensures Counted(Step(s, a))
  {
    var s' := Step(s, a);
    assert InStage(s', Recorded) == InStage(s, Recorded);
    assert InStage(s', Dispatching) == InStage(s, Dispatching);
    CountsOnlyDrop(s, a);
  }

  lemma CountsOnlyDrop(s: Sched, a: Action)
    requires Fits(s) && Enabled(s, a)
    requires a.FinishAdd? || a.FinishReschedule? || a.Remove? || a.Advance? || a.Scan? || a.Stop? || a.Halt?
    ensures Sum(Step(s, a).executions) <= Sum(s.executions)
  {
    if a.FinishAdd? {
      SumUpdate(s.executions, JobOf(s, s.adding.value).id, 0);
    } else if a.Remove? {
      SumUpdate(s.executions, a.jobId, 0);
    }
  }

  lemma StepKeepsCounted(s: Sched, a: Action)
    requires Counted(s)
    ensures Counted(Apply(s, a))
  {
    if Fits(s) && Enabled(s, a) {
      match a
      case BeginAdd(_) => LoadKeepsCounted(s, a);
      case BeginReschedule(_) => LoadKeepsCounted(s, a);
      case Record(_) => StageMoveKeepsCounted(s, a);
      case Note(_) => StageMoveKeepsCounted(s, a);
      case Complete(_) => StageMoveKeepsCounted(s, a);
      case Fail(_) => StageMoveKeepsCounted(s, a);
      case Panic(_) => StageMoveKeepsCounted(s, a);
      case _ => OtherKeepsCounted(s, a);
    }
  }

  /** In every reachable state the executed count is the completed, the failed, the recovered and those under
      way, and the per-job counts of the current entries never add up to more. */
  lemma {:induction false} CountersConserved(size: nat, tickDuration: int, actions: seq<Action>)
    ensures Counted(Run(Initial(size, tickDuration), actions))
  {
    if actions == [] {
      assert InStage(Initial(size, tickDuration), Recorded) == {} == InStage(Initial(size, tickDuration), Dispatching);
    } else {
      CountersConserved(size, tickDuration, actions[..|actions| - 1]);
      StepKeepsCounted(Run(Initial(size, tickDuration), actions[..|actions| - 1]), actions[|actions| - 1]);
    }
  }

  lemma ReachableCounted(s: Sched)
    requires Reachable(s)
    ensures Counted(s)
  {
    var size: nat, tickDuration: int, actions: seq<Action> :|
      size > 0 && tickDuration > 0 && s == Run(Initial(size, tickDuration), actions);
    CountersConserved(size, tickDuration, actions);
  }

  // ---------------------------------------------------------------- registry

  /** What the calls say about a job id: the job of the last call if that call added it. */
  function LastSaid(calls: seq<Call>, jobId: int): Option<Job> {
    if calls == [] then None else
      match calls[|calls| - 1]
      case Added(job) => if job.id == jobId then Some(job) else LastSaid(calls[..|calls| - 1], jobId)
      case Removed(id) => if id == jobId then None else LastSaid(calls[..|calls| - 1], jobId)
  }

  ghost predicate Registered(v: Server) {
    && (forall k :: LastSaid(v.calls, k) == if k in v.running then Some(v.running[k]) else None)
    && (!v.sched.wheel.stopped ==> v.running.Keys <= v.sched.cyclicTasks.Keys + v.sched.tempTasks.Keys)
  }

  lemma StepKeepsRegistered(v: Server, a: Action)
    requires Inv(v.sched) && Registered(v)
    ensures Registered(ServerStep(v, a))
    ensures ServerStep(v, a).sched == Apply(v.sched, a)
  {
    if Enabled(v.sched, a) {
      var v' := ServerStep(v, a);
      if |v'.calls| > |v.calls| {
        assert v'.calls[..|v'.calls| - 1] == v.calls;
      }
      if a.Remove? {
        RemoveShape(v.sched, a.jobId);
      }
      StepKeepsStopped(v.sched, a);
    }
  }

  lemma StepKeepsStopped(s: Sched, a: Action)
    requires Fits(s) && Enabled(s, a)
    ensures s.wheel.stopped ==> Step(s, a).wheel.stopped
    ensures a.Stop? ==> Step(s, a).wheel.stopped
  {
  }

  lemma {:induction false} RunKeepsRegistered(size: nat, tickDuration: int, actions: seq<Action>)
    requires size > 0 && tickDuration > 0
    ensures var v := ServerRun(ServerInitial(size, tickDuration), actions);
      Inv(v.sched) && Registered(v) && v.sched == Run(Initial(size, tickDuration), actions)
  {
    if actions == [] {
      InitialInv(size, tickDuration);
    } else {
      var before := actions[..|actions| - 1];
      RunKeepsRegistered(size, tickDuration, before);
      var v := ServerRun(ServerInitial(size, tickDuration), before);
      StepKeepsRegistered(v, actions[|actions| - 1]);
      StepKeepsInv(v.sched, actions[|actions| - 1]);
    }
  }

  ghost function ChainsOfKind(s: Sched, cyclic: bool): set<nat> {
    set c: nat | c < |s.chains| && s.chains[c].isCyclic == cyclic
  }

  /** Stored tasks of one kind belong to different AddJob calls of that kind. */
  lemma KindBound(s: Sched, stored: map<int, nat>, cyclic: bool)
    requires Fits(s) && forall k :: k in stored ==> stored[k] < |s.tasks| && StoredOk(s, k, stored[k], cyclic)
    ensures |stored.Keys| <= |ChainsOfKind(s, cyclic)|
  {
    var image := map k | k in stored :: s.tasks[stored[k]].chain;
    forall k | k in stored ensures image[k] in ChainsOfKind(s, cyclic) && s.chains[image[k]].id == k {
      assert StoredOk(s, k, stored[k], cyclic);
    }
    InjectionBound(stored.Keys, ChainsOfKind(s, cyclic), image);
  }

  /** Stored cyclic and one-time tasks together never exceed the number of AddJob calls. */
  lemma StoredBound(s: Sched)
    requires Fits(s) && MapsOk(s) && s.stats.added == |s.chains|
    ensures |s.cyclicTasks| + |s.tempTasks| <= s.stats.added
  {
    KindBound(s, s.cyclicTasks, true);
    KindBound(s, s.tempTasks, false);
    assert ChainsOfKind(s, true) + ChainsOfKind(s, false) == Below(|s.chains|);
  }

  /** Before Stop, the registry is what the calls say, and it and the execution counts only know stored tasks. */
  lemma RegistryConsistent(size: nat, tickDuration: int, actions: seq<Action>, v: Server)
    requires size > 0 && tickDuration > 0 && v == ServerRun(ServerInitial(size, tickDuration), actions)
    ensures forall k :: LastSaid(v.calls, k) == if k in v.running then Some(v.running[k]) else None
    ensures !v.sched.wheel.stopped ==> v.running.Keys <= v.sched.cyclicTasks.Keys + v.sched.tempTasks.Keys
    ensures v.sched.executions.Keys <= v.sched.cyclicTasks.Keys + v.sched.tempTasks.Keys
    ensures |v.sched.cyclicTasks| + |v.sched.tempTasks| <= v.sched.stats.added
  {
    RunKeepsRegistered(size, tickDuration, actions);
    StoredBound(v.sched);
  }
}
