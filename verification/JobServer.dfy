/** The job server that fronts the dispatcher, and the processor of delete messages. */
module JobServer {
  import opened Collections
  import opened Timing
  import opened WheelTimer
  import opened Scheduler
  import opened SchedulerRuns
  import opened SchedulerSafety
  import opened Registry
  import opened Dispatch

  /** Removes the jobs one after another; the second result lists the ids whose removal failed. */
  function RemoveAll(s: Sched, jobIds: seq<int>): (Sched, seq<int>) {
    if jobIds == [] then (s, []) else
      var last := jobIds[|jobIds| - 1];
      var (s1, failed) := RemoveAll(s, jobIds[..|jobIds| - 1]);
      (Apply(s1, Remove(last)), if IsStored(s1, last) then failed else failed + [last])
  }

  /** How many of the two task maps hold the id. */
  function Holders(s: Sched, jobId: int): nat {
    (if jobId in s.cyclicTasks then 1 else 0) + (if jobId in s.tempTasks then 1 else 0)
  }

  function Excess(n: nat, held: nat): nat {
    if n > held then n - held else 0
  }

  lemma RemoveTakesOne(s: Sched, jobId: int, k: int)
    requires Fits(s) && s.adding.None?
    ensures Holders(Apply(s, Remove(jobId)), k) == Excess(Holders(s, k), if k == jobId then 1 else 0)
  {
    RemoveShape(s, jobId);
  }

  lemma CountOfNext(ids: seq<int>, id: int, k: int)
    ensures multiset(ids + [id])[k] == multiset(ids)[k] + if k == id then 1 else 0
  {
  }

  lemma RemoveAllNext(s: Sched, jobIds: seq<int>, id: int)
    ensures var (s1, failed) := RemoveAll(s, jobIds);
      RemoveAll(s, jobIds + [id]) == (Apply(s1, Remove(id)), if IsStored(s1, id) then failed else failed + [id])
  {
    assert (jobIds + [id])[..|jobIds|] == jobIds;
  }

  /** The entries whose keys are not listed. */
  function Without(running: map<int, Job>, jobIds: seq<int>): (r: map<int, Job>)
    ensures forall k :: k in r <==> k in running && k !in jobIds
    ensures forall k :: k in r ==> r[k] == running[k]
  {
    map k | k in running && k !in jobIds :: running[k]
  }

  lemma WithoutNext(running: map<int, Job>, jobIds: seq<int>, id: int)
    ensures Without(running, jobIds + [id]) == Without(running, jobIds) - {id}
  {
  }

  lemma {:induction false} RemoveAllFits(s: Sched, jobIds: seq<int>)
    requires Fits(s) && s.adding.None?
    ensures Fits(RemoveAll(s, jobIds).0) && RemoveAll(s, jobIds).0.adding.None?
  {
    if jobIds != [] {
      var front, last := jobIds[..|jobIds| - 1], jobIds[|jobIds| - 1];
      RemoveAllFits(s, front);
      StepKeepsFits(RemoveAll(s, front).0, Remove(last));
      RemoveShape(RemoveAll(s, front).0, last);
    }
  }

  /** An id is reported as often as it is listed beyond the number of maps that hold it. */
  lemma {:induction false} BatchDeleteErrors(s: Sched, jobIds: seq<int>, k: int)
    requires Fits(s) && s.adding.None?
    ensures var (s', failed) := RemoveAll(s, jobIds);
      && multiset(failed)[k] == Excess(multiset(jobIds)[k], Holders(s, k))
      && Holders(s', k) == Excess(Holders(s, k), multiset(jobIds)[k])
  {
    if jobIds != [] {
      var front, last := jobIds[..|jobIds| - 1], jobIds[|jobIds| - 1];
      var (s1, failed) := RemoveAll(s, front);
      assert jobIds == front + [last];
      BatchDeleteErrors(s, front, k);
      RemoveAllNext(s, front, last);
      RemoveAllFits(s, front);
      RemoveTakesOne(s1, last, k);
      CountOfNext(front, last, k);
      CountOfNext(failed, last, k);
    }
  }

  /** Full success means that no id is listed more often than it is held. */
  lemma BatchDeleteSucceeds(s: Sched, jobIds: seq<int>)
    requires Fits(s) && s.adding.None?
    ensures RemoveAll(s, jobIds).1 == [] <==> forall k :: multiset(jobIds)[k] <= Holders(s, k)
  {
    var failed := RemoveAll(s, jobIds).1;
    forall k ensures multiset(failed)[k] == 0 <==> multiset(jobIds)[k] <= Holders(s, k) {
      BatchDeleteErrors(s, jobIds, k);
    }
    if failed != [] {
      var k := failed[0];
      assert multiset(failed)[k] > 0;
      assert !(multiset(jobIds)[k] <= Holders(s, k));
    }
  }

  // ---------------------------------------------------------------- the calls as steps of the server

  lemma RegisterAdds(v: Server, job: Job)
    requires Reachable(v.sched) && Registered(v) && v.sched.adding.None? && !v.sched.wheel.stopped
    ensures Registered(Server(AddJob(v.sched, job), v.running[job.id := job], v.calls + [Added(job)]))
  {
    ReachableInv(v.sched);
    StepKeepsInv(v.sched, BeginAdd(job));
    StepKeepsRegistered(v, BeginAdd(job));
    AddedStep(v, job);
    StepKeepsRegistered(ServerStep(v, BeginAdd(job)), FinishAdd);
  }

  lemma AddedStep(v: Server, job: Job)
    requires Fits(v.sched) && v.sched.adding.None? && !v.sched.wheel.stopped
    ensures ServerStep(ServerStep(v, BeginAdd(job)), FinishAdd)
         == Server(AddJob(v.sched, job), v.running[job.id := job], v.calls + [Added(job)])
  {
    StepKeepsFits(v.sched, BeginAdd(job));
  }

  lemma RegisterRemoves(v: Server, jobId: int)
    requires Reachable(v.sched) && Registered(v) && v.sched.adding.None?
    ensures Registered(Server(Apply(v.sched, Remove(jobId)), v.running - {jobId}, v.calls + [Removed(jobId)]))
  {
    ReachableInv(v.sched);
    StepKeepsRegistered(v, Remove(jobId));
  }

  class Runner {
    const dispatch: TimeDispatch
    var runningJobs: map<int, Job>
    /** The calls so far, in lock order. */
    ghost var calls: seq<Call>

    ghost predicate Valid()
      reads this, dispatch, dispatch.timer, dispatch.timer.wheel, dispatch.timer.created
    {
      dispatch.Valid() && Registered(Server(dispatch.sched, runningJobs, calls))
    }

    constructor ()
      ensures Valid() && fresh(dispatch) && fresh(dispatch.timer) && fresh(dispatch.timer.wheel)
      ensures runningJobs == map[] && calls == [] && dispatch.sched == Initial(DEFAULT_WHEEL_SIZE, DEFAULT_TICK)
    {
      dispatch := new TimeDispatch();
      runningJobs, calls := map[], [];
    }

    /** Registers and schedules a job; a missing job is an error and changes nothing. */
    method AddAsyncCollectJob(job: Option<Job>) returns (ok: bool)
      requires Valid() && !dispatch.timer.stopped
      modifies this, dispatch, dispatch.timer`created, dispatch.timer`model, dispatch.timer.wheel
      ensures Valid() && ok == job.Some?
      ensures runningJobs == if ok then old(runningJobs)[job.value.id := job.value] else old(runningJobs)
      ensures calls == if ok then old(calls) + [Added(job.value)] else old(calls)
      ensures dispatch.sched == if ok then AddJob(old(dispatch.sched), job.value) else old(dispatch.sched)
    {
      if job.None? {
        return false;
      }
      RegisterAdds(Server(dispatch.sched, runningJobs, calls), job.value);
      runningJobs := runningJobs[job.value.id := job.value];
      calls := calls + [Added(job.value)];
      // The dispatcher refuses a missing job only, so the entry never has to be taken back.
      ok := dispatch.AddJob(job);
    }

    /** Unregisters a job whether or not the dispatcher knows it; false when it does not. */
    method RemoveAsyncCollectJob(jobId: int) returns (ok: bool)
      requires Valid()
      modifies this, dispatch, dispatch.timer`model, dispatch.timer.created
      ensures Valid() && dispatch.timer.created == old(dispatch.timer.created)
      ensures ok == (jobId in old(dispatch.cyclicTasks) || jobId in old(dispatch.tempTasks))
      ensures ok == IsStored(old(dispatch.sched), jobId)
      ensures runningJobs == old(runningJobs) - {jobId} && calls == old(calls) + [Removed(jobId)]
      ensures dispatch.sched == Apply(old(dispatch.sched), Remove(jobId))
    {
      ghost var v := Server(dispatch.sched, runningJobs, calls);
      RegisterRemoves(v, jobId);
      runningJobs := runningJobs - {jobId};
      calls := calls + [Removed(jobId)];
      ok := dispatch.RemoveJob(jobId);
      assert Server(dispatch.sched, runningJobs, calls)
          == Server(Apply(v.sched, Remove(jobId)), v.running - {jobId}, v.calls + [Removed(jobId)]);
    }

    /** A tick of the timer leaves the registry in order. */
    method Tick()
      requires Valid() && !dispatch.timer.model.halted
      modifies dispatch`sched, dispatch.timer`currentTick, dispatch.timer`launched, dispatch.timer`model, dispatch.timer.wheel
      ensures Valid() && dispatch.sched == Apply(Apply(old(dispatch.sched), Advance), Scan)
    {
      ghost var v := Server(dispatch.sched, runningJobs, calls);
      OtherStepKeepsRegistered(v, Advance);
      OtherStepKeepsRegistered(v.(sched := Apply(v.sched, Advance)), Scan);
      dispatch.Tick();
    }

    /** So does an execution. */
    method RunTask(timeout: Timeout, outcome: Outcome) returns (ok: bool)
      requires Valid() && Known(dispatch.timer.created, timeout)
      requires At(dispatch.sched, timeout.id, Queued) && Launched(dispatch.sched, timeout.id)
      requires outcome == Succeeds && Repeats(timeout.job) ==> !dispatch.timer.stopped
      modifies dispatch, dispatch.timer`created, dispatch.timer`model, dispatch.timer.wheel
      ensures Valid() && ok == (outcome == Succeeds)
      ensures dispatch.sched == Execute(old(dispatch.sched), timeout.id, outcome)
    {
      ExecutionKeepsRegistered(Server(dispatch.sched, runningJobs, calls), timeout.id, outcome);
      ok := dispatch.RunTask(timeout, outcome);
    }
  }

  lemma OtherStepKeepsRegistered(v: Server, a: Action)
    requires Reachable(v.sched) && Registered(v) && !a.FinishAdd? && !a.Remove?
    ensures Reachable(Apply(v.sched, a)) && Registered(v.(sched := Apply(v.sched, a)))
  {
    ReachableInv(v.sched);
    StepKeepsRegistered(v, a);
    ReachableStep(v.sched, a);
  }

  lemma ExecutionKeepsRegistered(v: Server, id: nat, outcome: Outcome)
    requires Reachable(v.sched) && Registered(v)
    ensures Registered(v.(sched := Execute(v.sched, id, outcome)))
  {
    OtherStepKeepsRegistered(v, Record(id));
    var v1 := v.(sched := Apply(v.sched, Record(id)));
    OtherStepKeepsRegistered(v1, Note(id));
    var v2 := v1.(sched := Apply(v1.sched, Note(id)));
    match outcome
    case Panics => OtherStepKeepsRegistered(v2, Panic(id));
    case Errs => OtherStepKeepsRegistered(v2, Fail(id));
    case Succeeds =>
      OtherStepKeepsRegistered(v2, Complete(id));
      var v3 := v2.(sched := Apply(v2.sched, Complete(id)));
      OtherStepKeepsRegistered(v3, BeginReschedule(id));
      var v4 := v3.(sched := Apply(v3.sched, BeginReschedule(id)));
      OtherStepKeepsRegistered(v4, FinishReschedule(|v3.sched.tasks|));
  }

  /** The body of a delete message: an array of ids, a single id, or neither. */
  datatype DeleteBody = Many(jobIds: seq<int>) | One(jobId: int) | Unreadable

  datatype Reply = NoScheduler | ParseError | Partial(errors: seq<int>) | AllRemoved

  /** Each id is reported as often as it is listed beyond the number of task maps that hold it. */
  ghost predicate IsReply(jobIds: seq<int>, cyclic: map<int, Timeout>, temp: map<int, Timeout>, reply: Reply) {
    && (reply == AllRemoved || (reply.Partial? && reply.errors != []))
    && forall k ::
         var held := (if k in cyclic then 1 else 0) + (if k in temp then 1 else 0);
         var reported := if reply.Partial? then multiset(reply.errors)[k] else 0;
         reported == if multiset(jobIds)[k] > held then multiset(jobIds)[k] - held else 0
  }

  lemma RepliesTo(d: TimeDispatch, jobIds: seq<int>)
    requires d.Valid()
    ensures var errors := RemoveAll(d.sched, jobIds).1;
      IsReply(jobIds, d.cyclicTasks, d.tempTasks, if |errors| > 0 then Partial(errors) else AllRemoved)
  {
    ReachableFits(d.sched);
    var errors := RemoveAll(d.sched, jobIds).1;
    assert d.sched.cyclicTasks.Keys == d.cyclicTasks.Keys && d.sched.tempTasks.Keys == d.tempTasks.Keys;
    forall k ensures multiset(errors)[k] == Excess(multiset(jobIds)[k], (if k in d.cyclicTasks then 1 else 0) + (if k in d.tempTasks then 1 else 0)) {
      BatchDeleteErrors(d.sched, jobIds, k);
    }
  }

  /** Deletes the listed jobs and reports the failures. */
  method ProcessDelete(scheduler: Runner?, body: DeleteBody) returns (reply: Reply)
    requires scheduler != null ==> scheduler.Valid()
    modifies if scheduler == null then {} else {scheduler, scheduler.dispatch},
             if scheduler == null then {} else {scheduler.dispatch.timer},
             if scheduler == null then [] else scheduler.dispatch.timer.created
    ensures scheduler == null ==> reply == NoScheduler
    ensures scheduler != null ==> scheduler.Valid()
    ensures scheduler != null && body.Unreadable? ==>
      && reply == ParseError && scheduler.dispatch.sched == old(scheduler.dispatch.sched)
      && scheduler.runningJobs == old(scheduler.runningJobs)
    ensures scheduler != null && !body.Unreadable? ==>
      var jobIds := if body.Many? then body.jobIds else [body.jobId];
      && IsReply(jobIds, old(scheduler.dispatch.cyclicTasks), old(scheduler.dispatch.tempTasks), reply)
      && (reply == AllRemoved <==> forall k :: multiset(jobIds)[k] <= Holders(old(scheduler.dispatch.sched), k))
      && (reply != AllRemoved ==> reply == Partial(RemoveAll(old(scheduler.dispatch.sched), jobIds).1))
      && scheduler.dispatch.sched == RemoveAll(old(scheduler.dispatch.sched), jobIds).0
      && scheduler.runningJobs == Without(old(scheduler.runningJobs), jobIds)
  {
    if scheduler == null {
      return NoScheduler;
    }
    match body
    case Many(jobIds) => reply := DeleteListed(scheduler, jobIds);
    case One(jobId) => reply := DeleteListed(scheduler, [jobId]);
    case Unreadable => reply := ParseError;
  }

  method DeleteListed(scheduler: Runner, jobIds: seq<int>) returns (reply: Reply)
    requires scheduler.Valid()
    modifies scheduler, scheduler.dispatch, scheduler.dispatch.timer`model, scheduler.dispatch.timer.created
    ensures scheduler.Valid()
    ensures IsReply(jobIds, old(scheduler.dispatch.cyclicTasks), old(scheduler.dispatch.tempTasks), reply)
    ensures reply == AllRemoved <==> forall k :: multiset(jobIds)[k] <= Holders(old(scheduler.dispatch.sched), k)
    ensures reply != AllRemoved ==> reply == Partial(RemoveAll(old(scheduler.dispatch.sched), jobIds).1)
    ensures scheduler.dispatch.sched == RemoveAll(old(scheduler.dispatch.sched), jobIds).0
    ensures scheduler.runningJobs == Without(old(scheduler.runningJobs), jobIds)
  {
    RepliesTo(scheduler.dispatch, jobIds);
    ReachableFits(scheduler.dispatch.sched);
    BatchDeleteSucceeds(scheduler.dispatch.sched, jobIds);
    var errors := DeleteEach(scheduler, jobIds);
    reply := if |errors| > 0 then Partial(errors) else AllRemoved;
  }

  method DeleteEach(scheduler: Runner, jobIds: seq<int>) returns (errors: seq<int>)
    requires scheduler.Valid()
    modifies scheduler, scheduler.dispatch, scheduler.dispatch.timer`model, scheduler.dispatch.timer.created
    ensures scheduler.Valid() && scheduler.dispatch.timer.created == old(scheduler.dispatch.timer.created)
    ensures (scheduler.dispatch.sched, errors) == RemoveAll(old(scheduler.dispatch.sched), jobIds)
    ensures scheduler.runningJobs == Without(old(scheduler.runningJobs), jobIds)
  {
    errors := [];
    ghost var s, running, created := scheduler.dispatch.sched, scheduler.runningJobs, scheduler.dispatch.timer.created;
    for i := 0 to |jobIds|
      invariant scheduler.Valid() && scheduler.dispatch.timer.created == created
      invariant (scheduler.dispatch.sched, errors) == RemoveAll(s, jobIds[..i])
      invariant scheduler.runningJobs == Without(running, jobIds[..i])
    {
      RemoveAllNext(s, jobIds[..i], jobIds[i]);
      WithoutNext(running, jobIds[..i], jobIds[i]);
      assert jobIds[..i + 1] == jobIds[..i] + [jobIds[i]];
      var ok := scheduler.RemoveAsyncCollectJob(jobIds[i]);
      if !ok {
        errors := errors + [jobIds[i]];
      }
    }
    assert jobIds[..|jobIds|] == jobIds;
  }
}
