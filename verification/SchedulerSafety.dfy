/** Ends of chains: after a failure, a panic or a removal nothing of the job runs again. */
module SchedulerSafety {
  import opened Collections
  import opened Timing
  import W = Wheel
  import WheelFiring
  import opened Scheduler
  import opened SchedulerRuns

  // ---------------------------------------------------------------- what is past stays past

  lemma ScanLaunchesUncancelled(w: W.Wheel, id: nat)
    requires W.Enabled(w, W.Scan)
    requires id in W.FiredIds(W.Apply(w, W.Scan).fired) && id !in W.FiredIds(w.fired)
    ensures id < |w.nodes| && !w.nodes[id].cancelled
  {
    var due := W.Sift(w.nodes, w.buckets[w.tick % w.size], w.tick, W.Fire);
    W.FiredIdsAppend(w.fired, due, w.tick);
    W.SiftMember(w.nodes, w.buckets[w.tick % w.size], w.tick, W.Fire, id);
  }

  /** A launch that a step adds is the scan of a timeout that was not cancelled. */
  lemma NewLaunch(s: Sched, a: Action, i: nat)
    requires Fits(s) && Enabled(s, a) && Launched(Step(s, a), i) && !Launched(s, i)
    ensures a.Scan? && i < |s.tasks| && !s.wheel.nodes[i].cancelled
  {
    if a.Scan? && W.Enabled(s.wheel, W.Scan) {
      ScanLaunchesUncancelled(s.wheel, i);
    }
  }

  lemma PastStep(s: Sched, a: Action, i: nat)
    requires Fits(s) && Enabled(s, a) && i < |s.tasks| && TaskOk(s, i) && !Live(s, i)
    requires Fits(Step(s, a)) && Grows(s, Step(s, a))
    ensures !Live(Step(s, a), i)
    ensures Launched(Step(s, a), i) <==> Launched(s, i)
    ensures s.tasks[i].stage != Queued ==> Step(s, a).tasks[i].stage == s.tasks[i].stage
  {
    if Launched(Step(s, a), i) && !Launched(s, i) {
      NewLaunch(s, a, i);
    }
  }

  lemma PastStaysPast(s: Sched, a: Action, i: nat)
    requires Inv(s) && i < |s.tasks| && !Live(s, i)
    ensures Inv(Apply(s, a)) && i < |Apply(s, a).tasks| && !Live(Apply(s, a), i)
    ensures Launched(Apply(s, a), i) <==> Launched(s, i)
    ensures s.tasks[i].stage != Queued ==> Apply(s, a).tasks[i].stage == s.tasks[i].stage
  {
    StepKeepsInv(s, a);
    if Enabled(s, a) {
      StepGrows(s, a);
      assert TaskOk(s, i);
      PastStep(s, a, i);
    }
  }

  lemma {:induction false} PastStaysPastInRun(s: Sched, actions: seq<Action>, i: nat)
    requires Inv(s) && i < |s.tasks| && !Live(s, i)
    ensures var s' := Run(s, actions);
      && Inv(s') && i < |s'.tasks| && !Live(s', i) && s'.tasks[i].chain == s.tasks[i].chain
      && (s.tasks[i].stage != Queued ==> s'.tasks[i].stage == s.tasks[i].stage)
  {
    if actions != [] {
      var s1, a := Run(s, actions[..|actions| - 1]), actions[|actions| - 1];
      PastStaysPastInRun(s, actions[..|actions| - 1], i);
      PastStaysPast(s1, a, i);
      if Enabled(s1, a) {
        StepGrows(s1, a);
      }
    }
  }

  /** A chain whose dispatch failed or panicked never gets another timeout, in any continuation. */
  lemma FailedChainEnds(s: Sched, actions: seq<Action>, i: nat)
    requires Reachable(s) && (At(s, i, Failed) || At(s, i, Panicked))
    ensures var s' := Run(s, actions);
      && i < |s'.tasks| && s'.tasks[i].stage == s.tasks[i].stage
      && forall j :: 0 <= j < |s'.tasks| && s'.tasks[j].chain == s'.tasks[i].chain ==> j <= i
  {
    ReachableInv(s);
    PastStaysPastInRun(s, actions, i);
    var s' := Run(s, actions);
    forall j | i < j < |s'.tasks| ensures s'.tasks[j].chain != s'.tasks[i].chain {
      assert InOrder(s', i, j);
    }
  }

  // ---------------------------------------------------------------- what RemoveJob finds

  predicate IsStored(s: Sched, jobId: int) {
    jobId in s.cyclicTasks || jobId in s.tempTasks
  }

  /** The timeout that RemoveJob would find. */
  function Found(s: Sched, jobId: int): nat
    requires IsStored(s, jobId)
  {
    if jobId in s.cyclicTasks then s.cyclicTasks[jobId] else s.tempTasks[jobId]
  }

  /** RemoveJob cancels the timeout it finds and drops its key from the one map it found it in. */
  lemma RemoveShape(s: Sched, jobId: int)
    requires Fits(s) && s.adding.None?
    ensures var s' := Apply(s, Remove(jobId));
      && s'.tasks == s.tasks && s'.chains == s.chains && s'.adding == s.adding && s'.tickDuration == s.tickDuration
      && s'.wheel == (if IsStored(s, jobId) then W.Apply(s.wheel, W.Cancel(Found(s, jobId))) else s.wheel)
      && s'.wheel.fired == s.wheel.fired
      && s'.cyclicTasks == s.cyclicTasks - {jobId}
      && s'.tempTasks == (if jobId in s.cyclicTasks then s.tempTasks else s.tempTasks - {jobId})
      && s'.executions == (if IsStored(s, jobId) then s.executions - {jobId} else s.executions)
      && s'.stats == s.stats.(removed := s.stats.removed + 1)
  {
    if jobId !in s.cyclicTasks {
      assert s.cyclicTasks - {jobId} == s.cyclicTasks;
      if jobId !in s.tempTasks {
        assert s.tempTasks - {jobId} == s.tempTasks;
      }
    }
  }

  // ---------------------------------------------------------------- where the one live timeout is stored

  /** The timeout waits in the wheel and was not cancelled. */
  ghost predicate WaitsFree(s: Sched, i: nat)
    requires Fits(s) && i < |s.tasks|
  {
    Placed(s, i) && s.tasks[i].stage == Queued && !Launched(s, i) && !s.wheel.nodes[i].cancelled
  }

  /** No other AddJob call used the job id of this chain. */
  ghost predicate AddedOnce(s: Sched, chain: nat) {
    chain < |s.chains| && forall c :: 0 <= c < |s.chains| && s.chains[c].id == s.chains[chain].id ==> c == chain
  }

  ghost predicate Stored(s: Sched, i: nat)
    requires Fits(s) && i < |s.tasks|
  {
    var job := JobOf(s, i);
    if job.isCyclic then job.id in s.cyclicTasks && s.cyclicTasks[job.id] == i
    else job.id in s.tempTasks && s.tempTasks[job.id] == i
  }

  ghost predicate AtHome(s: Sched, i: nat)
    requires Fits(s) && i < |s.tasks|
  {
    WaitsFree(s, i) && AddedOnce(s, s.tasks[i].chain) ==> Stored(s, i)
  }

  ghost predicate Homes(s: Sched)
    requires Fits(s)
  {
    forall i :: 0 <= i < |s.tasks| ==> AtHome(s, i)
  }

  /** A job added once is looked up in the map of its own kind only. */
  lemma StoredInOneMap(s: Sched, i: nat)
    requires Inv(s) && i < |s.tasks| && AddedOnce(s, s.tasks[i].chain)
    ensures JobOf(s, i).isCyclic ==> JobOf(s, i).id !in s.tempTasks
    ensures !JobOf(s, i).isCyclic ==> JobOf(s, i).id !in s.cyclicTasks
  {
    var k := JobOf(s, i).id;
    if k in s.tempTasks {
      assert StoredOk(s, k, s.tempTasks[k], false);
      assert s.tasks[s.tempTasks[k]].chain == s.tasks[i].chain;
    }
    if k in s.cyclicTasks {
      assert StoredOk(s, k, s.cyclicTasks[k], true);
      assert s.tasks[s.cyclicTasks[k]].chain == s.tasks[i].chain;
    }
  }

  /** While a timeout waits, no other timeout of its chain can be inserted. */
  lemma WaitingIsAlone(s: Sched, i: nat, id: nat)
    requires Fits(s) && ChainsInOrder(s) && i < |s.tasks| && WaitsFree(s, i) && id < |s.tasks| && !Placed(s, id)
    ensures s.tasks[i].chain != s.tasks[id].chain
  {
    if i < id {
      assert InOrder(s, i, id);
    } else if id < i {
      assert InOrder(s, id, i);
    }
  }

  lemma InsertKeepsHome(s: Sched, a: Action, i: nat)
    requires Fits(s) && Enabled(s, a) && (a.FinishAdd? || a.FinishReschedule?) && Fits(Step(s, a))
    requires ChainsInOrder(s) && TasksOk(s) && i < |s.tasks| && AtHome(s, i)
    ensures AtHome(Step(s, a), i)
  {
    var id := if a.FinishAdd? then s.adding.value else a.id;
    assert TaskOk(s, id);
    if i != id && WaitsFree(s, i) {
      WaitingIsAlone(s, i, id);
    }
  }

  lemma RemoveKeepsHome(s: Sched, jobId: int, i: nat)
    requires Inv(s) && Enabled(s, Remove(jobId)) && Fits(Step(s, Remove(jobId)))
    requires i < |s.tasks| && AtHome(s, i)
    ensures AtHome(Step(s, Remove(jobId)), i)
  {
    RemoveShape(s, jobId);
    if AddedOnce(s, s.tasks[i].chain) {
      StoredInOneMap(s, i);
    }
  }

  lemma AddedOnceBefore(s: Sched, s': Sched, chain: nat)
    requires s.chains <= s'.chains && chain < |s.chains| && AddedOnce(s', chain)
    ensures AddedOnce(s, chain)
  {
    forall c | 0 <= c < |s.chains| && s.chains[c].id == s.chains[chain].id ensures c == chain {
      assert s'.chains[c] == s.chains[c];
    }
  }

  lemma StopKeepsHome(s: Sched, i: nat)
    requires Fits(s) && Enabled(s, Stop) && Fits(Step(s, Stop)) && i < |s.tasks| && AtHome(s, i)
    ensures AtHome(Step(s, Stop), i)
  {
    if Stored(s, i) {
      assert i in ValuesOf(s.cyclicTasks) + ValuesOf(s.tempTasks);
    }
  }

  lemma QuietStepKeepsHome(s: Sched, a: Action, i: nat)
    requires Fits(s) && Enabled(s, a) && !a.FinishAdd? && !a.FinishReschedule? && !a.Remove? && !a.Stop?
    requires Fits(Step(s, a)) && Grows(s, Step(s, a)) && i < |s.tasks| && AtHome(s, i)
    ensures AtHome(Step(s, a), i)
  {
    QuietStepStores(s, a);
    QuietStepFrees(s, a, i);
    HomeFrame(s, Step(s, a), i);
  }

  /** The other steps store nothing. */
  lemma QuietStepStores(s: Sched, a: Action)
    requires Fits(s) && Enabled(s, a) && !a.FinishAdd? && !a.FinishReschedule? && !a.Remove? && !a.Stop?
    ensures Step(s, a).cyclicTasks == s.cyclicTasks && Step(s, a).tempTasks == s.tempTasks
  {
  }

  /** No step but an insertion sets a timeout waiting. */
  lemma QuietStepFrees(s: Sched, a: Action, i: nat)
    requires Fits(s) && Enabled(s, a) && !a.FinishAdd? && !a.FinishReschedule? && i < |s.tasks|
    requires Fits(Step(s, a)) && Grows(s, Step(s, a))
    ensures WaitsFree(Step(s, a), i) ==> WaitsFree(s, i)
  {
    UnplacedStays(s, a, i);
    StageReturnsNever(s, a, i);
  }

  lemma UnplacedStays(s: Sched, a: Action, i: nat)
    requires Fits(s) && Enabled(s, a) && !a.FinishAdd? && !a.FinishReschedule? && i < |s.tasks|
    ensures Placed(Step(s, a), i) ==> Placed(s, i)
  {
  }

  lemma StageReturnsNever(s: Sched, a: Action, i: nat)
    requires Fits(s) && Enabled(s, a) && i < |s.tasks|
    ensures i < |Step(s, a).tasks| && (Step(s, a).tasks[i].stage == Queued ==> s.tasks[i].stage == Queued)
  {
  }

  lemma HomeFrame(s: Sched, s': Sched, i: nat)
    requires Fits(s) && Fits(s') && Grows(s, s') && i < |s.tasks| && AtHome(s, i)
    requires s'.cyclicTasks == s.cyclicTasks && s'.tempTasks == s.tempTasks && (WaitsFree(s', i) ==> WaitsFree(s, i))
    ensures AtHome(s', i)
  {
    if AddedOnce(s', s.tasks[i].chain) {
      AddedOnceBefore(s, s', s.tasks[i].chain);
    }
  }

  lemma StepKeepsHome(s: Sched, a: Action, i: nat)
    requires Inv(s) && Enabled(s, a) && i < |s.tasks| && AtHome(s, i)
    requires Fits(Step(s, a)) && Grows(s, Step(s, a))
    ensures AtHome(Step(s, a), i)
  {
    match a
    case FinishAdd => InsertKeepsHome(s, a, i);
    case FinishReschedule(_) => InsertKeepsHome(s, a, i);
    case Remove(jobId) => RemoveKeepsHome(s, jobId, i);
    case Stop => StopKeepsHome(s, i);
    case _ => QuietStepKeepsHome(s, a, i);
  }

  lemma NewTaskIsUnplaced(s: Sched, a: Action, i: nat)
    requires Fits(s) && Enabled(s, a) && |s.tasks| <= i < |Step(s, a).tasks|
    ensures !Placed(Step(s, a), i)
  {
  }

  lemma StepKeepsHomes(s: Sched, a: Action)
    requires Inv(s) && Homes(s)
    ensures Inv(Apply(s, a)) && Homes(Apply(s, a))
  {
    StepKeepsInv(s, a);
    if Enabled(s, a) {
      StepGrows(s, a);
      forall i: nat | i < |Step(s, a).tasks| ensures AtHome(Step(s, a), i) {
        if i < |s.tasks| {
          assert AtHome(s, i);
          StepKeepsHome(s, a, i);
        } else {
          NewTaskIsUnplaced(s, a, i);
        }
      }
    }
  }

  lemma {:induction false} RunKeepsHomes(s: Sched, actions: seq<Action>)
    requires Inv(s) && Homes(s)
    ensures Inv(Run(s, actions)) && Homes(Run(s, actions))
  {
    if actions != [] {
      RunKeepsHomes(s, actions[..|actions| - 1]);
      StepKeepsHomes(Run(s, actions[..|actions| - 1]), actions[|actions| - 1]);
    }
  }

  lemma ReachableHomes(s: Sched)
    requires Reachable(s)
    ensures Inv(s) && Homes(s)
  {
    var size: nat, tickDuration: int, actions: seq<Action> :|
      size > 0 && tickDuration > 0 && s == Run(Initial(size, tickDuration), actions);
    InitialInv(size, tickDuration);
    RunKeepsHomes(Initial(size, tickDuration), actions);
  }

  // ---------------------------------------------------------------- removal

  /** Nothing of the job can run any more. */
  ghost predicate Quiet(s: Sched, jobId: int)
    requires Fits(s)
  {
    forall i :: 0 <= i < |s.tasks| && JobOf(s, i).id == jobId ==> !Live(s, i)
  }

  /** The job has no execution under way and no timeout that is loaded but not inserted. */
  ghost predicate NothingInFlight(s: Sched, jobId: int)
    requires Fits(s)
  {
    forall i :: 0 <= i < |s.tasks| && JobOf(s, i).id == jobId && Live(s, i) ==> WaitsFree(s, i)
  }

  /** Of a job that was added once and has nothing in flight, only the timeout that a removal finds is live. */
  lemma OnlyFoundIsLive(s: Sched, jobId: int, i: nat)
    requires Reachable(s) && s.adding.None? && Fits(s) && IsStored(s, jobId)
    requires |Additions(s, jobId)| == 1 && NothingInFlight(s, jobId)
    requires i < |s.tasks| && JobOf(s, i).id == jobId && Live(s, i)
    ensures i == Found(s, jobId) && s.tasks[i].stage == Queued && !Launched(s, i)
  {
    ReachableHomes(s);
    var c :| c in Additions(s, jobId);
    assert |Additions(s, jobId) - {c}| == 0;
    forall c' | 0 <= c' < |s.chains| && s.chains[c'].id == jobId ensures c' == c {
      assert c' in Additions(s, jobId);
    }
    assert AddedOnce(s, s.tasks[i].chain);
    assert AtHome(s, i);
    StoredInOneMap(s, i);
  }

  ghost predicate NeverAdds(actions: seq<Action>, jobId: int) {
    forall k :: 0 <= k < |actions| && actions[k].BeginAdd? ==> actions[k].job.id != jobId
  }

  // ---------------------------------------------------------------- whole calls

  function AddJob(s: Sched, job: Job): Sched {
    Apply(Apply(s, BeginAdd(job)), FinishAdd)
  }

  /** Both halves of AddJob, with nothing between them. */
  lemma AddShape(s: Sched, job: Job)
    requires Fits(s) && s.adding.None? && !s.wheel.stopped
    ensures var id := |s.tasks|;
      AddJob(s, job) == s.(
        wheel := WheelFiring.Create(s.wheel, TruncDiv(FirstDelay(job), s.tickDuration)),
        tasks := s.tasks + [Task(|s.chains|, Queued)],
        chains := s.chains + [job],
        cyclicTasks := if job.isCyclic then s.cyclicTasks[job.id := id] else s.cyclicTasks,
        tempTasks := if job.isCyclic then s.tempTasks else s.tempTasks[job.id := id],
        executions := s.executions[job.id := 0],
        stats := s.stats.(added := s.stats.added + 1))
    ensures Fits(AddJob(s, job))
  {
    var s1 := Apply(s, BeginAdd(job));
    StepKeepsFits(s, BeginAdd(job));
    StepKeepsFits(s1, FinishAdd);
  }

  /** A completed execution stores its job again, whether or not the job was removed while it ran. */
  lemma RescheduleStoresAgain(s: Sched, id: nat)
    requires Inv(s) && At(s, id, Completed) && !s.wheel.stopped
    ensures var s' := RescheduleJob(s, id);
      && Fits(s') && |s'.tasks| == |s.tasks| + 1
      && JobOf(s', |s.tasks|) == JobOf(s, id) && IsStored(s', JobOf(s, id).id)
      && Found(s', JobOf(s, id).id) == |s.tasks| && Live(s', |s.tasks|)
  {
    assert TaskOk(s, id);
    RescheduleShape(s, id);
    WheelFiring.CreateShape(s.wheel, TruncDiv(NextDelay(JobOf(s, id)), s.tickDuration));
  }

  function RescheduleJob(s: Sched, id: nat): Sched {
    Apply(Apply(s, BeginReschedule(id)), FinishReschedule(|s.tasks|))
  }

  /** Both halves of RescheduleJob, with nothing between them. */
  lemma RescheduleShape(s: Sched, id: nat)
    requires Fits(s) && At(s, id, Completed) && !s.wheel.stopped && Repeats(JobOf(s, id)) && s.adding != Some(|s.tasks|)
    ensures RescheduleJob(s, id) == s.(
        wheel := WheelFiring.Create(s.wheel, TruncDiv(NextDelay(JobOf(s, id)), s.tickDuration)),
        tasks := s.tasks[id := s.tasks[id].(stage := Finished)] + [Task(s.tasks[id].chain, Queued)],
        cyclicTasks := s.cyclicTasks[JobOf(s, id).id := |s.tasks|])
    ensures Fits(RescheduleJob(s, id))
  {
    var s1 := Apply(s, BeginReschedule(id));
    StepKeepsFits(s, BeginReschedule(id));
    StepKeepsFits(s1, FinishReschedule(|s.tasks|));
  }
}
