/**
 The time dispatcher and the timer task in their own imperative form.  A dispatcher carries the state of the
 scheduler's transition system that it is in.  That state is reachable, and every method takes steps of the
 system, so what holds over all runs of the system holds of the object.
 */
module Dispatch {
  import opened Collections
  import opened Timing
  import W = Wheel
  import WheelFiring
  import opened WheelTimer
  import opened Scheduler
  import opened SchedulerRuns
  import opened SchedulerSafety
  import Registry

  datatype JobInfo = JobInfo(job: Job, executionCount: nat)

  ghost function Counts(infos: map<int, JobInfo>): map<int, nat> {
    map k | k in infos :: infos[k].executionCount
  }

  lemma PositionsUpdate(m: map<int, Timeout>, k: int, t: Timeout)
    ensures Positions(m[k := t]) == Positions(m)[k := t.id]
  {
  }

  lemma PositionsRemove(m: map<int, Timeout>, k: int)
    ensures Positions(m - {k}) == Positions(m) - {k}
  {
  }

  lemma CountsUpdate(infos: map<int, JobInfo>, k: int, info: JobInfo)
    ensures Counts(infos[k := info]) == Counts(infos)[k := info.executionCount]
  {
  }

  lemma CountsRemove(infos: map<int, JobInfo>, k: int)
    ensures Counts(infos - {k}) == Counts(infos) - {k}
  {
  }

  /** One more execution of a job whose count is still kept. */
  function Noted(counts: map<int, nat>, jobId: int): map<int, nat> {
    if jobId in counts then counts[jobId := counts[jobId] + 1] else counts
  }

  lemma NotedCounts(infos: map<int, JobInfo>, k: int)
    ensures k !in infos ==> Noted(Counts(infos), k) == Counts(infos)
    ensures k in infos ==>
      Counts(infos[k := infos[k].(executionCount := infos[k].executionCount + 1)]) == Noted(Counts(infos), k)
  {
  }

  /** Every timeout carries the job of its chain. */
  ghost predicate JobsMatch(created: seq<Timeout>, tasks: seq<Task>, chains: seq<Job>) {
    && |tasks| == |created|
    && forall i :: 0 <= i < |tasks| ==> tasks[i].chain < |chains| && created[i].job == chains[tasks[i].chain]
  }

  lemma JobsMatchNext(created: seq<Timeout>, tasks: seq<Task>, chains: seq<Job>, more: seq<Job>, t: Timeout, task: Task)
    requires JobsMatch(created, tasks, chains) && task.chain < |chains + more| && t.job == (chains + more)[task.chain]
    ensures JobsMatch(created + [t], tasks + [task], chains + more)
  {
  }

  lemma StoredNext(created: seq<Timeout>, m: map<int, Timeout>, k: int, t: Timeout)
    requires AllStored(created, m) && t.id == |created|
    ensures AllStored(created + [t], m) && AllStored(created + [t], m[k := t])
  {
  }

  lemma StoppedModel(w: W.Wheel, a: set<nat>, b: set<nat>)
    requires w.tick == w.scanned
    ensures var w1 := w.(nodes := W.Cancelled(w.nodes, a));
      W.Apply(W.Apply(w1.(nodes := W.Cancelled(w1.nodes, b)), W.Stop), W.Halt)
      == w.(nodes := W.Cancelled(w.nodes, a + b), stopped := true, halted := true)
  {
    CancelledTwice(w.nodes, a, b);
  }

  /** The timeout is stored under the job's ID in the map of its kind, and the job's count starts at zero. */
  ghost predicate EntryAdded(job: Job, t: Timeout, cyclic: map<int, Timeout>, temp: map<int, Timeout>, infos: map<int, JobInfo>,
                             cyclic': map<int, Timeout>, temp': map<int, Timeout>, infos': map<int, JobInfo>) {
    && cyclic' == (if job.isCyclic then cyclic[job.id := t] else cyclic)
    && temp' == (if job.isCyclic then temp else temp[job.id := t])
    && infos' == infos[job.id := JobInfo(job, 0)]
  }

  /** A job that is known has one more execution; nothing else changes. */
  ghost predicate CountedOnce(jobId: int, infos: map<int, JobInfo>, infos': map<int, JobInfo>) {
    && infos'.Keys == infos.Keys
    && forall k :: k in infos ==>
         && infos'[k].job == infos[k].job
         && infos'[k].executionCount == infos[k].executionCount + if k == jobId then 1 else 0
  }

  /** After a success, and only then, a repeating job has a new timeout, its interval in seconds ahead. */
  ghost predicate RepeatedOnce(job: Job, success: bool, timer: HashedWheelTimer, created: seq<Timeout>,
                               cyclic: map<int, Timeout>, cyclic': map<int, Timeout>)
    requires timer.tickDuration > 0
    reads timer, timer.created
  {
    if success && job.isCyclic && job.defaultInterval > 0 then
      && |timer.created| == |created| + 1 && timer.created[|created|].job == job
      && timer.created[|created|].wheelIndex == timer.currentTick + job.defaultInterval * 1_000_000_000 / timer.tickDuration
      && cyclic' == cyclic[job.id := timer.created[|created|]]
    else timer.created == created && cyclic' == cyclic
  }

  /** How DispatchMetricsTask ends for one execution. */
  datatype Outcome = Succeeds | Errs | Panics

  /** The steps of one execution that nothing interrupts. */
  function Execute(s: Sched, id: nat, outcome: Outcome): Sched {
    var s1 := Apply(Apply(s, Record(id)), Note(id));
    match outcome
    case Panics => Apply(s1, Panic(id))
    case Errs => Apply(s1, Fail(id))
    case Succeeds => RescheduleJob(Apply(s1, Complete(id)), id)
  }

  // ---------------------------------------------------------------- what the steps change, in reachable states

  lemma ReachableFits(s: Sched)
    requires Reachable(s)
    ensures Fits(s)
  {
    ReachableInv(s);
  }

  lemma NoteShape(s: Sched, id: nat)
    requires Fits(s) && At(s, id, Recorded)
    ensures Apply(s, Note(id)) == ToStage(s, id, Dispatching).(executions := Noted(s.executions, JobOf(s, id).id))
  {
  }

  lemma StopShape(s: Sched)
    requires Fits(s) && s.adding.None? && s.wheel.tick == s.wheel.scanned
    ensures Apply(Apply(s, Stop), Halt) == s.(
      wheel := s.wheel.(nodes := W.Cancelled(s.wheel.nodes, ValuesOf(s.cyclicTasks) + ValuesOf(s.tempTasks)),
                        stopped := true, halted := true),
      cyclicTasks := map[], tempTasks := map[], executions := map[])
  {
    StepKeepsFits(s, Stop);
  }

  lemma TickSteps(s: Sched)
    requires Reachable(s)
    ensures Reachable(Apply(Apply(s, Advance), Scan))
    ensures Apply(Apply(s, Advance), Scan) == s.(wheel := WheelFiring.Tick(s.wheel))
  {
    ReachableFits(s);
    StepKeepsFits(s, Advance);
    ReachableStep(s, Advance);
    ReachableStep(Apply(s, Advance), Scan);
  }

  lemma AddSteps(s: Sched, job: Job)
    requires Reachable(s) && s.adding.None? && !s.wheel.stopped
    ensures s.tickDuration > 0 && s.wheel.tick >= 0 && |s.tasks| == |s.wheel.nodes|
    ensures Reachable(AddJob(s, job))
    ensures AddJob(s, job) == s.(
        wheel := WheelFiring.Create(s.wheel, TruncDiv(FirstDelay(job), s.tickDuration)),
        tasks := s.tasks + [Task(|s.chains|, Queued)],
        chains := s.chains + [job],
        cyclicTasks := if job.isCyclic then s.cyclicTasks[job.id := |s.tasks|] else s.cyclicTasks,
        tempTasks := if job.isCyclic then s.tempTasks else s.tempTasks[job.id := |s.tasks|],
        executions := s.executions[job.id := 0],
        stats := s.stats.(added := s.stats.added + 1))
  {
    ReachableFits(s);
    AddShape(s, job);
    ReachableStep(s, BeginAdd(job));
    ReachableStep(Apply(s, BeginAdd(job)), FinishAdd);
  }

  lemma RemoveSteps(s: Sched, jobId: int)
    requires Reachable(s) && s.adding.None?
    ensures var s' := Apply(s, Remove(jobId)); var stored := IsStored(s, jobId);
      Reachable(s') && s' == s.(
        wheel := if stored then W.Apply(s.wheel, W.Cancel(Found(s, jobId))) else s.wheel,
        cyclicTasks := s.cyclicTasks - {jobId},
        tempTasks := if jobId in s.cyclicTasks then s.tempTasks else s.tempTasks - {jobId},
        executions := if stored then s.executions - {jobId} else s.executions,
        stats := s.stats.(removed := s.stats.removed + 1))
  {
    ReachableFits(s);
    RemoveShape(s, jobId);
    ReachableStep(s, Remove(jobId));
  }

  lemma RescheduleSteps(s: Sched, id: nat)
    requires Reachable(s) && s.adding.None? && !s.wheel.stopped && At(s, id, Completed)
    ensures s.tickDuration > 0 && s.wheel.tick >= 0 && |s.tasks| == |s.wheel.nodes| && s.tasks[id].chain < |s.chains|
    ensures Reachable(RescheduleJob(s, id))
    ensures var job := s.chains[s.tasks[id].chain];
      RescheduleJob(s, id) == s.(
        wheel := WheelFiring.Create(s.wheel, TruncDiv(NextDelay(job), s.tickDuration)),
        tasks := s.tasks[id := s.tasks[id].(stage := Finished)] + [Task(s.tasks[id].chain, Queued)],
        cyclicTasks := s.cyclicTasks[job.id := |s.tasks|])
  {
    ReachableInv(s);
    assert TaskOk(s, id);
    RescheduleShape(s, id);
    ReachableStep(s, BeginReschedule(id));
    ReachableStep(Apply(s, BeginReschedule(id)), FinishReschedule(|s.tasks|));
  }

  lemma RecordStep(s: Sched, id: nat)
    requires Reachable(s) && At(s, id, Queued) && Launched(s, id)
    ensures Reachable(Apply(s, Record(id)))
    ensures Apply(s, Record(id)) == ToStage(s, id, Recorded).(stats := s.stats.(executed := s.stats.executed + 1))
  {
    ReachableFits(s);
    ReachableStep(s, Record(id));
  }

  lemma NoteStep(s: Sched, id: nat)
    requires Reachable(s) && At(s, id, Recorded)
    ensures Reachable(Apply(s, Note(id))) && s.tasks[id].chain < |s.chains|
    ensures Apply(s, Note(id))
         == ToStage(s, id, Dispatching).(executions := Noted(s.executions, s.chains[s.tasks[id].chain].id))
  {
    ReachableFits(s);
    NoteShape(s, id);
    ReachableStep(s, Note(id));
  }

  lemma CompleteStep(s: Sched, id: nat)
    requires Reachable(s) && At(s, id, Dispatching)
    ensures Reachable(Apply(s, Complete(id))) && s.tasks[id].chain < |s.chains|
    ensures Apply(s, Complete(id))
         == ToStage(s, id, if Repeats(s.chains[s.tasks[id].chain]) then Completed else Finished)
              .(stats := s.stats.(completed := s.stats.completed + 1))
  {
    ReachableFits(s);
    ReachableStep(s, Complete(id));
  }

  lemma EndSteps(s: Sched, id: nat)
    requires Reachable(s) && At(s, id, Dispatching)
    ensures Reachable(Apply(s, Panic(id))) && Reachable(Apply(s, Fail(id)))
    ensures Apply(s, Panic(id)) == ToStage(s, id, Panicked).(panicked := s.panicked + 1)
    ensures Apply(s, Fail(id)) == ToStage(s, id, Failed).(stats := s.stats.(failed := s.stats.failed + 1))
  {
    ReachableFits(s);
    ReachableStep(s, Panic(id));
    ReachableStep(s, Fail(id));
  }

  /** Without a completed cyclic execution the two halves of a reschedule do nothing. */
  lemma NothingToReschedule(s: Sched, id: nat)
    requires Reachable(s) && !At(s, id, Completed)
    ensures RescheduleJob(s, id) == s
  {
    ReachableFits(s);
  }

  lemma StopSteps(s: Sched)
    requires Reachable(s) && s.adding.None? && s.wheel.tick == s.wheel.scanned
    ensures Reachable(Apply(Apply(s, Stop), Halt))
    ensures Apply(Apply(s, Stop), Halt) == s.(
      wheel := s.wheel.(nodes := W.Cancelled(s.wheel.nodes, ValuesOf(s.cyclicTasks) + ValuesOf(s.tempTasks)),
                        stopped := true, halted := true),
      cyclicTasks := map[], tempTasks := map[], executions := map[])
  {
    ReachableFits(s);
    StopShape(s);
    ReachableStep(s, Stop);
    ReachableStep(Apply(s, Stop), Halt);
  }

  lemma CancelledTwice(nodes: seq<W.Node>, a: set<nat>, b: set<nat>)
    ensures W.Cancelled(W.Cancelled(nodes, a), b) == W.Cancelled(nodes, a + b)
  {
  }

  class TimeDispatch {
    const timer: HashedWheelTimer
    var cyclicTasks: map<int, Timeout>
    var tempTasks: map<int, Timeout>
    var jobInfos: map<int, JobInfo>
    var stats: Stats
    /** The state of the scheduler's transition system that this object is in. */
    ghost var sched: Sched

    /** The fields say what the state says. */
    ghost predicate Linked()
      reads this, timer
    {
      && sched.wheel == timer.model && sched.tickDuration == timer.tickDuration
      && sched.cyclicTasks == Positions(cyclicTasks) && sched.tempTasks == Positions(tempTasks)
      && sched.executions == Counts(jobInfos) && sched.stats == stats && sched.adding == None
    }

    /** The timer is in order and the maps hold its timeouts. */
    ghost predicate Stored()
      reads this, timer, timer.wheel, timer.created
    {
      timer.Valid() && AllStored(timer.created, cyclicTasks) && AllStored(timer.created, tempTasks)
    }

    ghost predicate Valid()
      reads this, timer, timer.wheel, timer.created
    {
      && Stored() && Linked() && JobsMatch(timer.created, sched.tasks, sched.chains) && Reachable(sched)
    }

    constructor ()
      ensures Valid() && fresh(timer) && fresh(timer.wheel) && !timer.stopped
      ensures sched == Initial(DEFAULT_WHEEL_SIZE, DEFAULT_TICK)
      ensures timer.wheelSize == 512 && timer.tickDuration == 100_000_000 && timer.currentTick == 0
      ensures cyclicTasks == map[] && tempTasks == map[] && jobInfos == map[] && stats == Stats(0, 0, 0, 0, 0)
    {
      timer := new HashedWheelTimer(DEFAULT_WHEEL_SIZE, DEFAULT_TICK);
      cyclicTasks, tempTasks, jobInfos := map[], map[], map[];
      stats := Stats(0, 0, 0, 0, 0);
      sched := Initial(DEFAULT_WHEEL_SIZE, DEFAULT_TICK);
      ReachableInitial(DEFAULT_WHEEL_SIZE, DEFAULT_TICK);
    }

    /** One tick of the timer. */
    method Tick()
      requires Valid() && !timer.model.halted
      modifies this`sched, timer`currentTick, timer`launched, timer`model, timer.wheel
      ensures Valid() && sched == Apply(Apply(old(sched), Advance), Scan)
      ensures timer.currentTick == old(timer.currentTick) + 1
    {
      TickSteps(sched);
      timer.ProcessTick();
      sched := Apply(Apply(sched, Advance), Scan);
    }

    /** Adds a job; a missing job is an error and changes nothing. */
    method AddJob(job: Option<Job>) returns (ok: bool)
      requires Valid() && !timer.stopped
      modifies this, timer`created, timer`model, timer.wheel
      ensures Valid() && ok == job.Some?
      ensures sched == if ok then SchedulerSafety.AddJob(old(sched), job.value) else old(sched)
      ensures ok ==> |timer.created| == |old(timer.created)| + 1 && timer.created[|old(timer.created)|].job == job.value
      ensures ok ==> EntryAdded(job.value, timer.created[|old(timer.created)|],
                                old(cyclicTasks), old(tempTasks), old(jobInfos), cyclicTasks, tempTasks, jobInfos)
      ensures ok ==>
        var delay := if job.value.defaultInterval > 0 then job.value.defaultInterval * 1_000_000 else 10_000_000_000;
        timer.created[|old(timer.created)|].wheelIndex == timer.currentTick + delay / timer.tickDuration
      ensures stats == if ok then old(stats).(added := old(stats).added + 1) else old(stats)
    {
      if job.None? {
        return false;
      }
      var j := job.value;
      AddSteps(sched, j);
      AddEntry(j);
      JobsMatchNext(old(timer.created), sched.tasks, sched.chains, [j], timer.created[|sched.tasks|], Task(|sched.chains|, Queued));
      sched := SchedulerSafety.AddJob(sched, j);
      return true;
    }

    /** Puts a job on the wheel and its timeout into the map of its kind, and starts its count. */
    method AddEntry(job: Job)
      requires Stored() && !timer.stopped && timer.currentTick >= 0
      modifies this`cyclicTasks, this`tempTasks, this`jobInfos, this`stats, timer`created, timer`model, timer.wheel
      ensures Stored() && |timer.created| == |old(timer.created)| + 1
      ensures timer.created[..|old(timer.created)|] == old(timer.created) && timer.created[|old(timer.created)|].job == job
      ensures timer.model == WheelFiring.Create(old(timer.model), TruncDiv(FirstDelay(job), timer.tickDuration))
      ensures var delay := if job.defaultInterval > 0 then job.defaultInterval * 1_000_000 else 10_000_000_000;
        timer.created[|old(timer.created)|].wheelIndex == timer.currentTick + delay / timer.tickDuration
      ensures EntryAdded(job, timer.created[|old(timer.created)|],
                         old(cyclicTasks), old(tempTasks), old(jobInfos), cyclicTasks, tempTasks, jobInfos)
      ensures Positions(cyclicTasks)
           == if job.isCyclic then old(Positions(cyclicTasks))[job.id := |old(timer.created)|] else old(Positions(cyclicTasks))
      ensures Positions(tempTasks)
           == if job.isCyclic then old(Positions(tempTasks)) else old(Positions(tempTasks))[job.id := |old(timer.created)|]
      ensures Counts(jobInfos) == old(Counts(jobInfos))[job.id := 0]
      ensures stats == old(stats).(added := old(stats).added + 1)
    {
      stats := stats.(added := stats.added + 1);
      var delay := if job.defaultInterval > 0 then job.defaultInterval * MILLISECOND else 10 * SECOND;
      TruncDivOfNonNegative(delay, timer.tickDuration);
      var timeout := timer.NewTimeout(job, delay);
      PositionsUpdate(cyclicTasks, job.id, timeout);
      PositionsUpdate(tempTasks, job.id, timeout);
      CountsUpdate(jobInfos, job.id, JobInfo(job, 0));
      StoredNext(old(timer.created), cyclicTasks, job.id, timeout);
      StoredNext(old(timer.created), tempTasks, job.id, timeout);
      if job.isCyclic {
        cyclicTasks := cyclicTasks[job.id := timeout];
      } else {
        tempTasks := tempTasks[job.id := timeout];
      }
      jobInfos := jobInfos[job.id := JobInfo(job, 0)];
    }

    /** Removes a job, looking first among the cyclic ones; false when it is in neither map. */
    method RemoveJob(jobId: int) returns (ok: bool)
      requires Valid()
      modifies this, timer`model, timer.created
      ensures Valid() && timer.created == old(timer.created)
      ensures sched == Apply(old(sched), Remove(jobId))
      ensures ok == (jobId in old(cyclicTasks) || jobId in old(tempTasks))
      ensures jobId in old(cyclicTasks) ==> old(cyclicTasks)[jobId].cancelled && tempTasks == old(tempTasks)
      ensures jobId !in old(cyclicTasks) && jobId in old(tempTasks) ==> old(tempTasks)[jobId].cancelled
      ensures jobId !in old(cyclicTasks) ==> tempTasks == old(tempTasks) - {jobId}
      ensures cyclicTasks == old(cyclicTasks) - {jobId}
      ensures jobInfos == if ok then old(jobInfos) - {jobId} else old(jobInfos)
      ensures stats == old(stats).(removed := old(stats).removed + 1)
    {
      RemoveSteps(sched, jobId);
      PositionsRemove(cyclicTasks, jobId);
      PositionsRemove(tempTasks, jobId);
      CountsRemove(jobInfos, jobId);
      ok := RemoveEntry(jobId);
      sched := Apply(sched, Remove(jobId));
    }

    method RemoveEntry(jobId: int) returns (ok: bool)
      requires Stored()
      modifies this`cyclicTasks, this`tempTasks, this`jobInfos, this`stats, timer`model, timer.created
      ensures Stored() && timer.created == old(timer.created)
      ensures ok == (jobId in old(cyclicTasks) || jobId in old(tempTasks))
      ensures jobId in old(cyclicTasks) ==> old(cyclicTasks)[jobId].cancelled
      ensures jobId !in old(cyclicTasks) && jobId in old(tempTasks) ==> old(tempTasks)[jobId].cancelled
      ensures timer.model == if jobId in old(cyclicTasks) then W.Apply(old(timer.model), W.Cancel(old(cyclicTasks)[jobId].id))
                             else if jobId in old(tempTasks) then W.Apply(old(timer.model), W.Cancel(old(tempTasks)[jobId].id))
                             else old(timer.model)
      ensures cyclicTasks == old(cyclicTasks) - {jobId}
      ensures tempTasks == if jobId in old(cyclicTasks) then old(tempTasks) else old(tempTasks) - {jobId}
      ensures jobInfos == if ok then old(jobInfos) - {jobId} else old(jobInfos)
      ensures stats == old(stats).(removed := old(stats).removed + 1)
    {
      stats := stats.(removed := stats.removed + 1);
      if jobId in cyclicTasks {
        timer.CancelTimeout(cyclicTasks[jobId]);
        cyclicTasks := cyclicTasks - {jobId};
        jobInfos := jobInfos - {jobId};
        return true;
      }
      if jobId in tempTasks {
        timer.CancelTimeout(tempTasks[jobId]);
        tempTasks := tempTasks - {jobId};
        jobInfos := jobInfos - {jobId};
        return true;
      }
      return false;
    }

    /** Puts the job of a completed execution back on the wheel; refuses a job that does not repeat. */
    method RescheduleJob(job: Job, ghost id: nat) returns (ok: bool)
      requires Valid()
      requires Repeats(job) ==> !timer.stopped && At(sched, id, Completed) && timer.created[id].job == job
      modifies this`cyclicTasks, this`sched, timer`created, timer`model, timer.wheel
      ensures Valid() && ok == (job.isCyclic && job.defaultInterval > 0)
      ensures sched == if ok then SchedulerSafety.RescheduleJob(old(sched), id) else old(sched)
      ensures ok ==> |timer.created| == |old(timer.created)| + 1
      ensures ok ==> var t := timer.created[|old(timer.created)|]; t.job == job && cyclicTasks == old(cyclicTasks)[job.id := t]
      ensures ok ==>
        var delay := job.defaultInterval * 1_000_000_000;
        timer.created[|old(timer.created)|].wheelIndex == timer.currentTick + delay / timer.tickDuration
      ensures !ok ==> cyclicTasks == old(cyclicTasks) && timer.created == old(timer.created)
    {
      if !job.isCyclic || job.defaultInterval <= 0 {
        return false;
      }
      RescheduleSteps(sched, id);
      var nextDelay := job.defaultInterval * SECOND;
      TruncDivOfNonNegative(nextDelay, timer.tickDuration);
      var timeout := timer.NewTimeout(job, nextDelay);
      PositionsUpdate(cyclicTasks, job.id, timeout);
      StoredNext(old(timer.created), cyclicTasks, job.id, timeout);
      StoredNext(old(timer.created), tempTasks, job.id, timeout);
      cyclicTasks := cyclicTasks[job.id := timeout];
      sched := SchedulerSafety.RescheduleJob(sched, id);
      return true;
    }

    /** Counts an execution of a job that is still known. */
    method UpdateJobExecution(jobId: int, ghost id: nat)
      requires Valid() && At(sched, id, Recorded) && timer.created[id].job.id == jobId
      modifies this`jobInfos, this`sched
      ensures Valid() && sched == Apply(old(sched), Note(id))
      ensures CountedOnce(jobId, old(jobInfos), jobInfos)
    {
      NoteStep(sched, id);
      NoteEntry(jobId);
      sched := Apply(sched, Note(id));
    }

    method NoteEntry(jobId: int)
      modifies this`jobInfos
      ensures Counts(jobInfos) == Noted(old(Counts(jobInfos)), jobId)
      ensures CountedOnce(jobId, old(jobInfos), jobInfos)
    {
      NotedCounts(jobInfos, jobId);
      if jobId in jobInfos {
        jobInfos := jobInfos[jobId := jobInfos[jobId].(executionCount := jobInfos[jobId].executionCount + 1)];
      }
    }

    method RecordJobExecution(ghost id: nat)
      requires Valid() && At(sched, id, Queued) && Launched(sched, id)
      modifies this`stats, this`sched
      ensures Valid() && sched == Apply(old(sched), Record(id))
      ensures stats == old(stats).(executed := old(stats).executed + 1)
    {
      RecordStep(sched, id);
      sched := Apply(sched, Record(id));
      stats := stats.(executed := stats.executed + 1);
    }

    method RecordJobCompleted(ghost id: nat)
      requires Valid() && At(sched, id, Dispatching)
      modifies this`stats, this`sched
      ensures Valid() && sched == Apply(old(sched), Complete(id))
      ensures stats == old(stats).(completed := old(stats).completed + 1)
    {
      CompleteStep(sched, id);
      sched := Apply(sched, Complete(id));
      stats := stats.(completed := stats.completed + 1);
    }

    method RecordJobFailed(ghost id: nat)
      requires Valid() && At(sched, id, Dispatching)
      modifies this`stats, this`sched
      ensures Valid() && sched == Apply(old(sched), Fail(id))
      ensures stats == old(stats).(failed := old(stats).failed + 1)
    {
      EndSteps(sched, id);
      sched := Apply(sched, Fail(id));
      stats := stats.(failed := stats.failed + 1);
    }

    /** A panic in the task is recovered by the timer; no counter changes. */
    ghost method RecoverPanic(id: nat)
      requires Valid() && At(sched, id, Dispatching)
      modifies this`sched
      ensures Valid() && sched == Apply(old(sched), Panic(id))
    {
      EndSteps(sched, id);
      sched := Apply(sched, Panic(id));
    }

    /** The timer task of a launched timeout, from its start to its failure or to the insertion of its successor. */
    method RunTask(timeout: Timeout, outcome: Outcome) returns (ok: bool)
      requires Valid() && Known(timer.created, timeout) && At(sched, timeout.id, Queued) && Launched(sched, timeout.id)
      requires outcome == Succeeds && Repeats(timeout.job) ==> !timer.stopped
      modifies this, timer`created, timer`model, timer.wheel
      ensures Valid() && ok == (outcome == Succeeds)
      ensures sched == Execute(old(sched), timeout.id, outcome)
      ensures CountedOnce(timeout.job.id, old(jobInfos), jobInfos)
      ensures stats == old(stats).(
        executed := old(stats).executed + 1,
        completed := old(stats).completed + (if outcome == Succeeds then 1 else 0),
        failed := old(stats).failed + (if outcome == Errs then 1 else 0))
      ensures RepeatedOnce(timeout.job, outcome == Succeeds, timer, old(timer.created), old(cyclicTasks), cyclicTasks)
    {
      BeginTask(timeout);
      match outcome
      case Panics =>
        RecoverPanic(timeout.id);
        return false;
      case Errs =>
        RecordJobFailed(timeout.id);
        return false;
      case Succeeds =>
        CompleteTask(timeout);
        return true;
    }

    method BeginTask(timeout: Timeout)
      requires Valid() && Known(timer.created, timeout)
      requires At(sched, timeout.id, Queued) && Launched(sched, timeout.id)
      modifies this`stats, this`jobInfos, this`sched
      ensures Valid() && sched == Apply(Apply(old(sched), Record(timeout.id)), Note(timeout.id))
      ensures At(sched, timeout.id, Dispatching)
      ensures stats == old(stats).(executed := old(stats).executed + 1)
      ensures CountedOnce(timeout.job.id, old(jobInfos), jobInfos)
    {
      RecordStep(sched, timeout.id);
      RecordJobExecution(timeout.id);
      NoteStep(sched, timeout.id);
      UpdateJobExecution(timeout.job.id, timeout.id);
    }

    method CompleteTask(timeout: Timeout)
      requires Valid() && Known(timer.created, timeout) && At(sched, timeout.id, Dispatching)
      requires Repeats(timeout.job) ==> !timer.stopped
      modifies this`stats, this`cyclicTasks, this`sched, timer`created, timer`model, timer.wheel
      ensures Valid()
      ensures sched == SchedulerSafety.RescheduleJob(Apply(old(sched), Complete(timeout.id)), timeout.id)
      ensures stats == old(stats).(completed := old(stats).completed + 1)
      ensures RepeatedOnce(timeout.job, true, timer, old(timer.created), old(cyclicTasks), cyclicTasks)
    {
      CompleteStep(sched, timeout.id);
      RecordJobCompleted(timeout.id);
      if timeout.job.isCyclic && timeout.job.defaultInterval > 0 {
        var _ := RescheduleJob(timeout.job, timeout.id);
      } else {
        NothingToReschedule(sched, timeout.id);
      }
    }

    /** Cancels all stored timeouts, forgets them, and stops the wheel; a second call changes nothing. */
    method Stop()
      requires Valid()
      modifies this, timer`stopped, timer`model, timer.created
      ensures Valid() && timer.stopped && timer.created == old(timer.created)
      ensures sched == if old(timer.stopped) then old(sched) else Apply(Apply(old(sched), Action.Stop), Halt)
      ensures stats == old(stats)
      ensures !old(timer.stopped) ==> cyclicTasks == map[] && tempTasks == map[] && jobInfos == map[]
      ensures !old(timer.stopped) ==> forall k :: k in old(cyclicTasks) ==> old(cyclicTasks)[k].cancelled
      ensures !old(timer.stopped) ==> forall k :: k in old(tempTasks) ==> old(tempTasks)[k].cancelled
    {
      if timer.stopped {
        return;
      }
      StopSteps(sched);
      CancelEntries();
      sched := Apply(Apply(sched, Action.Stop), Halt);
    }

    method CancelEntries()
      requires Stored() && !timer.stopped
      modifies this`cyclicTasks, this`tempTasks, this`jobInfos, timer`stopped, timer`model, timer.created
      ensures Stored() && timer.stopped && timer.created == old(timer.created)
      ensures cyclicTasks == map[] && tempTasks == map[] && jobInfos == map[]
      ensures forall k :: k in old(cyclicTasks) ==> old(cyclicTasks)[k].cancelled
      ensures forall k :: k in old(tempTasks) ==> old(tempTasks)[k].cancelled
      ensures var stored := ValuesOf(old(Positions(cyclicTasks))) + ValuesOf(old(Positions(tempTasks)));
        timer.model == old(timer.model).(nodes := W.Cancelled(old(timer.model).nodes, stored), stopped := true, halted := true)
    {
      StoppedModel(timer.model, ValuesOf(Positions(cyclicTasks)), ValuesOf(Positions(tempTasks)));
      CancelStored();
      timer.Stop();
      cyclicTasks, tempTasks, jobInfos := map[], map[], map[];
    }

    method CancelStored()
      requires Stored()
      modifies timer`model, timer.created
      ensures Stored() && timer.created == old(timer.created)
      ensures forall k :: k in cyclicTasks ==> cyclicTasks[k].cancelled
      ensures forall k :: k in tempTasks ==> tempTasks[k].cancelled
      ensures var w1 := old(timer.model).(nodes := W.Cancelled(old(timer.model).nodes, ValuesOf(Positions(cyclicTasks))));
        timer.model == w1.(nodes := W.Cancelled(w1.nodes, ValuesOf(Positions(tempTasks))))
    {
      PositionsOfAll(cyclicTasks);
      PositionsOfAll(tempTasks);
      timer.CancelAll(cyclicTasks);
      timer.CancelAll(tempTasks);
    }
  }

  // ---------------------------------------------------------------- what the theorems say of a dispatcher

  /** In whatever state the calls have brought it, a dispatcher's counters balance, its maps hold no more than
      was added, its execution counts belong to stored tasks, and no job has more live timeouts and executions
      than additions. */
  lemma DispatcherConsistent(d: TimeDispatch, jobId: int)
    requires d.Valid()
    ensures Fits(d.sched) && Registry.Counted(d.sched)
    ensures |d.cyclicTasks| + |d.tempTasks| <= d.stats.added
    ensures d.jobInfos.Keys <= d.cyclicTasks.Keys + d.tempTasks.Keys
    ensures |LiveTasks(d.sched, jobId)| <= |Additions(d.sched, jobId)|
  {
    ReachableInv(d.sched);
    Registry.ReachableCounted(d.sched);
    Registry.StoredBound(d.sched);
    ChainConservation(d.sched, jobId);
    assert d.sched.cyclicTasks.Keys == d.cyclicTasks.Keys && d.sched.tempTasks.Keys == d.tempTasks.Keys;
    assert d.sched.executions.Keys == d.jobInfos.Keys;
    SameSize(d.cyclicTasks);
    SameSize(d.tempTasks);
  }

  lemma SameSize(m: map<int, Timeout>)
    ensures |Positions(m)| == |m|
  {
    assert Positions(m).Keys == m.Keys;
    assert |Positions(m)| == |Positions(m).Keys| && |m| == |m.Keys|;
  }
}
