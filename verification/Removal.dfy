/** When a removal is final: exactly which jobs never start again until they are added again. */
module Removal {
  import opened Timing
  import W = Wheel
  import WheelFiring
  import opened Scheduler
  import opened SchedulerRuns
  import opened SchedulerSafety

  /** Every launch of the job was there before. */
  ghost predicate NoNewLaunch(s: Sched, s': Sched, jobId: int) {
    Fits(s') && forall i :: 0 <= i < |s'.tasks| && JobOf(s', i).id == jobId && Launched(s', i) ==>
                              i < |s.tasks| && Launched(s, i)
  }

  /** Every timeout of the job was there before, and launched if it is launched now. */
  ghost predicate NothingNew(s: Sched, s': Sched, jobId: int) {
    Fits(s) && Fits(s') && forall i :: 0 <= i < |s'.tasks| && JobOf(s', i).id == jobId ==>
      i < |s.tasks| && JobOf(s, i) == JobOf(s', i) && (Launched(s', i) ==> Launched(s, i))
  }

  /** What is left of the job are executions under way that will not reschedule. */
  ghost predicate Ending(s: Sched, jobId: int)
    requires Fits(s)
  {
    forall i :: 0 <= i < |s.tasks| && JobOf(s, i).id == jobId && Live(s, i) ==> Launched(s, i) && !Repeats(JobOf(s, i))
  }

  // ---------------------------------------------------------------- an ending job stays so

  lemma NewTaskOfOther(s: Sched, a: Action, jobId: int, i: nat)
    requires Fits(s) && TasksOk(s) && Enabled(s, a) && Ending(s, jobId) && (a.BeginAdd? ==> a.job.id != jobId)
    requires Fits(Step(s, a)) && |s.tasks| <= i < |Step(s, a).tasks|
    ensures JobOf(Step(s, a), i).id != jobId
  {
    if a.BeginReschedule? {
      assert TaskOk(s, a.id) && Live(s, a.id);
    }
  }

  lemma EndingTaskStep(s: Sched, a: Action, jobId: int, i: nat)
    requires Inv(s) && Enabled(s, a) && Ending(s, jobId) && i < |s.tasks| && JobOf(s, i).id == jobId
    requires Fits(Step(s, a)) && Grows(s, Step(s, a))
    ensures JobOf(Step(s, a), i) == JobOf(s, i)
    ensures Launched(Step(s, a), i) <==> Launched(s, i)
    ensures Live(Step(s, a), i) ==> Launched(Step(s, a), i) && !Repeats(JobOf(s, i))
  {
    if !Live(s, i) {
      PastStaysPast(s, a, i);
    }
  }

  lemma EndingStep(s: Sched, a: Action, jobId: int)
    requires Inv(s) && Ending(s, jobId) && (a.BeginAdd? ==> a.job.id != jobId)
    ensures Inv(Apply(s, a)) && Ending(Apply(s, a), jobId) && NothingNew(s, Apply(s, a), jobId)
  {
    StepKeepsInv(s, a);
    if Enabled(s, a) {
      StepGrows(s, a);
      var s' := Step(s, a);
      forall i: nat | i < |s'.tasks| && JobOf(s', i).id == jobId
        ensures i < |s.tasks| && JobOf(s, i) == JobOf(s', i) && (Launched(s', i) <==> Launched(s, i))
        ensures Live(s', i) ==> Launched(s', i) && !Repeats(JobOf(s', i))
      {
        if i >= |s.tasks| {
          NewTaskOfOther(s, a, jobId, i);
        }
        assert JobOf(s', i) == JobOf(s, i);
        EndingTaskStep(s, a, jobId, i);
      }
    }
  }

  lemma {:induction false} EndingRun(s: Sched, actions: seq<Action>, jobId: int)
    requires Inv(s) && Ending(s, jobId) && NeverAdds(actions, jobId)
    ensures Inv(Run(s, actions)) && Ending(Run(s, actions), jobId) && NothingNew(s, Run(s, actions), jobId)
  {
    if actions != [] {
      var front, last := actions[..|actions| - 1], actions[|actions| - 1];
      assert NeverAdds(front, jobId);
      EndingRun(s, front, jobId);
      var s1 := Run(s, front);
      EndingStep(s1, last, jobId);
      NothingNewTwice(s, s1, Run(s, actions), jobId);
    }
  }

  lemma NothingNewTwice(s: Sched, s1: Sched, s2: Sched, jobId: int)
    requires NothingNew(s, s1, jobId) && NothingNew(s1, s2, jobId)
    ensures NothingNew(s, s2, jobId)
  {
  }

  // ---------------------------------------------------------------- a waiting timeout can be brought to launch

  lemma {:induction false} RunInTwo(s: Sched, a: seq<Action>, b: seq<Action>)
    ensures Run(s, a + b) == Run(Run(s, a), b)
  {
    if b == [] {
      assert a + b == a;
    } else {
      var front, last := b[..|b| - 1], b[|b| - 1];
      RunInTwo(s, a, front);
      RunNext(s, a + front, last);
      RunNext(Run(s, a), front, last);
      assert a + b == (a + front) + [last] && b == front + [last];
    }
  }

  lemma RunNext(s: Sched, actions: seq<Action>, last: Action)
    ensures Run(s, actions + [last]) == Apply(Run(s, actions), last)
  {
    assert (actions + [last])[..|actions|] == actions;
  }

  lemma RunOne(s: Sched, a: Action)
    ensures Run(s, [a]) == Apply(s, a)
  {
    assert [a][..0] == [];
  }

  lemma RunFirst(s: Sched, a: Action, rest: seq<Action>)
    ensures Run(s, [a] + rest) == Run(Apply(s, a), rest)
  {
    RunInTwo(s, [a], rest);
    RunOne(s, a);
  }

  /** The loop is running: ticks can follow. */
  predicate Ticking(s: Sched) {
    !s.wheel.stopped && !s.wheel.halted
  }

  lemma TickStep(s: Sched, a: Action)
    requires Fits(s) && Ticking(s) && (a == Advance || a == Scan)
    ensures var s' := Apply(s, a);
      && s'.wheel == W.Apply(s.wheel, if a == Scan then W.Scan else W.Advance)
      && s'.wheel.nodes == s.wheel.nodes && s'.wheel.size == s.wheel.size && Ticking(s')
      && s'.tasks == s.tasks && s'.chains == s.chains && s'.adding == s.adding
  {
  }

  /** The same timeouts and executions, one scan later. */
  ghost predicate TickedOn(s: Sched, s': Sched) {
    && Inv(s') && Ticking(s') && s'.wheel.nodes == s.wheel.nodes && s'.wheel.size == s.wheel.size
    && s'.wheel.scanned == s.wheel.scanned + 1 && s'.tasks == s.tasks && s'.chains == s.chains
  }

  /** Steps that lead to the next scan. */
  lemma OneTick(s: Sched) returns (actions: seq<Action>, s': Sched)
    requires Inv(s) && Ticking(s)
    ensures forall k :: 0 <= k < |actions| ==> !actions[k].BeginAdd?
    ensures s' == Run(s, actions) && TickedOn(s, s')
  {
    if s.wheel.tick == s.wheel.scanned {
      actions, s' := TickAndScan(s);
    } else {
      s' := ScanStep(s);
      RunOne(s, Scan);
      actions := [Scan];
    }
  }

  lemma TickAndScan(s: Sched) returns (actions: seq<Action>, s': Sched)
    requires Inv(s) && Ticking(s) && s.wheel.tick == s.wheel.scanned
    ensures forall k :: 0 <= k < |actions| ==> !actions[k].BeginAdd?
    ensures s' == Run(s, actions) && TickedOn(s, s')
  {
    var s1 := AdvanceStep(s);
    s' := ScanStep(s1);
    RunTwo(s, Advance, Scan);
    actions := [Advance, Scan];
  }

  lemma RunTwo(s: Sched, a: Action, b: Action)
    ensures Run(s, [a, b]) == Apply(Apply(s, a), b)
  {
    assert [a] + [b] == [a, b];
    RunFirst(s, a, [b]);
    RunOne(Apply(s, a), b);
  }

  lemma AdvanceStep(s: Sched) returns (s': Sched)
    requires Inv(s) && Ticking(s) && s.wheel.tick == s.wheel.scanned
    ensures s' == Apply(s, Advance) && Inv(s') && Ticking(s') && s'.wheel.tick == s'.wheel.scanned + 1
    ensures s'.wheel.nodes == s.wheel.nodes && s'.wheel.size == s.wheel.size && s'.wheel.scanned == s.wheel.scanned
    ensures s'.tasks == s.tasks && s'.chains == s.chains
  {
    s' := Apply(s, Advance);
    TickStep(s, Advance);
    StepKeepsInv(s, Advance);
  }

  lemma ScanStep(s: Sched) returns (s': Sched)
    requires Inv(s) && Ticking(s) && s.wheel.tick == s.wheel.scanned + 1
    ensures s' == Apply(s, Scan) && TickedOn(s, s')
  {
    s' := Apply(s, Scan);
    TickStep(s, Scan);
    StepKeepsInv(s, Scan);
  }

  /** A timeout in the wheel that nobody cancels is launched after enough ticks. */
  lemma {:induction false} TicksLaunch(s: Sched, i: nat) returns (actions: seq<Action>, s': Sched)
    requires Inv(s) && Ticking(s) && Placed(s, i) && !s.wheel.nodes[i].cancelled
    ensures forall k :: 0 <= k < |actions| ==> !actions[k].BeginAdd?
    ensures s' == Run(s, actions) && Fits(s') && s'.tasks == s.tasks && s'.chains == s.chains && Launched(s', i)
    decreases W.Due(s.wheel, i) - s.wheel.scanned
  {
    if W.Due(s.wheel, i) <= s.wheel.scanned {
      WheelFiring.FiredOrGone(s.wheel, i);
      actions, s' := [], s;
    } else {
      var first, s1 := OneTick(s);
      var rest;
      rest, s' := TicksLaunch(s1, i);
      RunInTwo(s, first, rest);
      actions := first + rest;
    }
  }

  lemma InsertStep(s: Sched, i: nat) returns (s': Sched)
    requires Inv(s) && Ticking(s) && s.adding.None? && i < |s.tasks| && !Placed(s, i) && !s.wheel.nodes[i].cancelled
    ensures s' == Apply(s, FinishReschedule(i)) && Inv(s') && Ticking(s') && Placed(s', i) && !s'.wheel.nodes[i].cancelled
    ensures s'.tasks == s.tasks && s'.chains == s.chains
  {
    s' := Apply(s, FinishReschedule(i));
    StepKeepsInv(s, FinishReschedule(i));
    InsertShape(s, i);
  }

  lemma InsertShape(s: Sched, i: nat)
    requires Fits(s) && Ticking(s) && s.adding.None? && i < |s.tasks| && !Placed(s, i) && !s.wheel.nodes[i].cancelled
    ensures var s' := Apply(s, FinishReschedule(i));
      Ticking(s') && Placed(s', i) && !s'.wheel.nodes[i].cancelled && s'.tasks == s.tasks && s'.chains == s.chains
  {
  }

  /** A loaded timeout that nobody cancels is inserted and then launched. */
  lemma InsertAndLaunch(s: Sched, i: nat) returns (actions: seq<Action>, s': Sched)
    requires Inv(s) && Ticking(s) && s.adding.None? && i < |s.tasks| && !s.wheel.nodes[i].cancelled
    ensures forall k :: 0 <= k < |actions| ==> !actions[k].BeginAdd?
    ensures s' == Run(s, actions) && Fits(s') && s'.tasks == s.tasks && s'.chains == s.chains && Launched(s', i)
  {
    if Placed(s, i) {
      actions, s' := TicksLaunch(s, i);
    } else {
      actions, s' := InsertFirst(s, i);
    }
  }

  lemma InsertFirst(s: Sched, i: nat) returns (actions: seq<Action>, s': Sched)
    requires Inv(s) && Ticking(s) && s.adding.None? && i < |s.tasks| && !Placed(s, i) && !s.wheel.nodes[i].cancelled
    ensures forall k :: 0 <= k < |actions| ==> !actions[k].BeginAdd?
    ensures s' == Run(s, actions) && Fits(s') && s'.tasks == s.tasks && s'.chains == s.chains && Launched(s', i)
  {
    var s1 := InsertStep(s, i);
    var rest;
    rest, s' := TicksLaunch(s1, i);
    RunFirst(s, FinishReschedule(i), rest);
    actions := [FinishReschedule(i)] + rest;
  }

  // ---------------------------------------------------------------- an execution under way can reschedule and launch

  /** One step of the execution towards its reschedule. */
  function Onward(s: Sched, i: nat): Action
    requires i < |s.tasks|
  {
    match s.tasks[i].stage
    case Queued => Record(i)
    case Recorded => Note(i)
    case _ => Complete(i)
  }

  function StepsToGo(stage: Stage): nat {
    match stage
    case Queued => 3
    case Recorded => 2
    case Dispatching => 1
    case _ => 0
  }

  lemma OnwardStep(s: Sched, i: nat)
    requires Fits(s) && Ticking(s) && s.adding.None? && i < |s.tasks| && Live(s, i) && Launched(s, i)
    requires Repeats(JobOf(s, i)) && s.tasks[i].stage != Completed && Fits(Apply(s, Onward(s, i)))
    ensures var s' := Apply(s, Onward(s, i));
      && Ticking(s') && s'.adding.None? && |s'.tasks| == |s.tasks|
      && Live(s', i) && Launched(s', i) && JobOf(s', i) == JobOf(s, i)
      && StepsToGo(s'.tasks[i].stage) < StepsToGo(s.tasks[i].stage)
  {
  }

  lemma RescheduleStep(s: Sched, i: nat)
    requires Fits(s) && Ticking(s) && s.adding.None? && At(s, i, Completed) && Repeats(JobOf(s, i))
    requires Fits(Apply(s, BeginReschedule(i)))
    ensures var s' := Apply(s, BeginReschedule(i));
      && Ticking(s') && s'.adding.None? && |s'.tasks| == |s.tasks| + 1
      && JobOf(s', |s.tasks|) == JobOf(s, i) && !s'.wheel.nodes[|s.tasks|].cancelled
  {
  }

  lemma OnwardInv(s: Sched, i: nat) returns (s': Sched)
    requires Inv(s) && Ticking(s) && s.adding.None? && i < |s.tasks| && Live(s, i) && Launched(s, i)
    requires Repeats(JobOf(s, i)) && s.tasks[i].stage != Completed
    ensures s' == Apply(s, Onward(s, i)) && Inv(s') && Ticking(s') && s'.adding.None? && |s'.tasks| == |s.tasks|
    ensures Live(s', i) && Launched(s', i) && JobOf(s', i) == JobOf(s, i)
    ensures StepsToGo(s'.tasks[i].stage) < StepsToGo(s.tasks[i].stage)
  {
    s' := Apply(s, Onward(s, i));
    StepKeepsInv(s, Onward(s, i));
    OnwardStep(s, i);
  }

  /** An execution of a repeating job leads to a further launch. */
  lemma {:induction false} ExecutionRelaunches(s: Sched, i: nat) returns (actions: seq<Action>, s': Sched, j: nat)
    requires Inv(s) && Ticking(s) && s.adding.None? && i < |s.tasks| && Live(s, i) && Launched(s, i) && Repeats(JobOf(s, i))
    ensures forall k :: 0 <= k < |actions| ==> !actions[k].BeginAdd?
    ensures s' == Run(s, actions) && Fits(s')
    ensures |s.tasks| <= j < |s'.tasks| && JobOf(s', j).id == JobOf(s, i).id && Launched(s', j)
    decreases StepsToGo(s.tasks[i].stage)
  {
    if s.tasks[i].stage == Completed {
      actions, s', j := CompletedRelaunches(s, i);
    } else {
      var s1 := OnwardInv(s, i);
      var rest;
      rest, s', j := ExecutionRelaunches(s1, i);
      RunFirst(s, Onward(s, i), rest);
      actions := [Onward(s, i)] + rest;
    }
  }

  lemma CompletedRelaunches(s: Sched, i: nat) returns (actions: seq<Action>, s': Sched, j: nat)
    requires Inv(s) && Ticking(s) && s.adding.None? && At(s, i, Completed) && Repeats(JobOf(s, i))
    ensures forall k :: 0 <= k < |actions| ==> !actions[k].BeginAdd?
    ensures s' == Run(s, actions) && Fits(s')
    ensures |s.tasks| <= j < |s'.tasks| && JobOf(s', j).id == JobOf(s, i).id && Launched(s', j)
  {
    j := |s.tasks|;
    var s1 := Apply(s, BeginReschedule(i));
    StepKeepsInv(s, BeginReschedule(i));
    RescheduleStep(s, i);
    var rest;
    rest, s' := InsertAndLaunch(s1, j);
    RunFirst(s, BeginReschedule(i), rest);
    actions := [BeginReschedule(i)] + rest;
  }

  /** A job that is not ending can start again without being added. */
  lemma NotEndingLaunches(s: Sched, jobId: int) returns (actions: seq<Action>)
    requires Inv(s) && Ticking(s) && s.adding.None? && !Ending(s, jobId)
    ensures NeverAdds(actions, jobId) && !NoNewLaunch(s, Run(s, actions), jobId)
  {
    var i: nat :| i < |s.tasks| && JobOf(s, i).id == jobId && Live(s, i) && !(Launched(s, i) && !Repeats(JobOf(s, i)));
    var s';
    if Launched(s, i) {
      var j;
      actions, s', j := ExecutionRelaunches(s, i);
    } else {
      assert TaskOk(s, i);
      actions, s' := InsertAndLaunch(s, i);
      assert JobOf(s', i) == JobOf(s, i);
    }
  }

  // ---------------------------------------------------------------- the removal

  /** The removal takes away the timeout it finds, if that still waits, and nothing else. */
  lemma EndingAfterRemoval(s: Sched, jobId: int)
    requires Inv(s) && s.adding.None? && IsStored(s, jobId)
    ensures var s' := Apply(s, Remove(jobId));
      && Inv(s') && s'.adding.None? && (Ticking(s) ==> Ticking(s')) && |s'.tasks| == |s.tasks| && s'.wheel.fired == s.wheel.fired
      && (forall i :: 0 <= i < |s.tasks| ==> JobOf(s', i) == JobOf(s, i) && (Launched(s', i) <==> Launched(s, i)))
      && (forall i :: 0 <= i < |s.tasks| ==>
            (Live(s', i) <==> Live(s, i) && !(i == Found(s, jobId) && s.tasks[i].stage == Queued && !Launched(s, i))))
      && (Ending(s', jobId) <==> forall i :: 0 <= i < |s.tasks| && JobOf(s, i).id == jobId && Live(s, i) ==>
            (i == Found(s, jobId) && s.tasks[i].stage == Queued && !Launched(s, i))
            || (Launched(s, i) && !Repeats(JobOf(s, i))))
  {
    StepKeepsInv(s, Remove(jobId));
    RemoveShape(s, jobId);
    var s' := Apply(s, Remove(jobId));
    forall i | 0 <= i < |s.tasks|
      ensures JobOf(s', i) == JobOf(s, i) && (Launched(s', i) <==> Launched(s, i))
      ensures Live(s', i) <==> Live(s, i) && !(i == Found(s, jobId) && s.tasks[i].stage == Queued && !Launched(s, i))
    {
    }
  }

  /** A job added once and removed while nothing of it is in flight has nothing live left, and is never launched
      again, until it is added again. */
  lemma RemovalIsFinal(s: Sched, jobId: int, actions: seq<Action>)
    requires Reachable(s) && s.adding.None? && Fits(s) && IsStored(s, jobId)
    requires |Additions(s, jobId)| == 1 && NothingInFlight(s, jobId) && NeverAdds(actions, jobId)
    ensures var s' := Run(Apply(s, Remove(jobId)), actions); Fits(s') && Quiet(s', jobId) && NoNewLaunch(s, s', jobId)
  {
    ReachableInv(s);
    EndingAfterRemoval(s, jobId);
    var s1 := Apply(s, Remove(jobId));
    forall i: nat | i < |s.tasks| && JobOf(s, i).id == jobId ensures !Live(s1, i) {
      if Live(s, i) {
        OnlyFoundIsLive(s, jobId, i);
      }
    }
    EndingRun(s1, actions, jobId);
    var s' := Run(s1, actions);
    forall i: nat | i < |s'.tasks| && JobOf(s', i).id == jobId ensures !Live(s', i) {
      PastStaysPastInRun(s1, actions, i);
    }
  }

  /** No continuation that does not add the job launches it again. */
  ghost predicate NeverLaunches(s: Sched, jobId: int) {
    forall actions :: NeverAdds(actions, jobId) ==> NoNewLaunch(s, Run(s, actions), jobId)
  }

  /** A removal is final exactly when whatever of the job is live is either the timeout that the removal finds,
      still waiting, or an execution already launched that will not reschedule. */
  lemma RemovalFinalIff(s: Sched, jobId: int)
    requires Inv(s) && Ticking(s) && s.adding.None? && IsStored(s, jobId)
    ensures NeverLaunches(Apply(s, Remove(jobId)), jobId) <==>
      forall i :: 0 <= i < |s.tasks| && JobOf(s, i).id == jobId && Live(s, i) ==>
        (i == Found(s, jobId) && s.tasks[i].stage == Queued && !Launched(s, i))
        || (Launched(s, i) && !Repeats(JobOf(s, i)))
  {
    EndingAfterRemoval(s, jobId);
    var s' := Apply(s, Remove(jobId));
    if Ending(s', jobId) {
      forall actions | NeverAdds(actions, jobId) ensures NoNewLaunch(s', Run(s', actions), jobId) {
        EndingRun(s', actions, jobId);
      }
    } else {
      var actions := NotEndingLaunches(s', jobId);
    }
  }

  /** Adding a live job again does not cancel its earlier timeout: after one removal it still starts again. */
  lemma ReaddedJobStartsAgain(s: Sched, i: nat, job: Job) returns (actions: seq<Action>)
    requires Inv(s) && Ticking(s) && s.adding.None? && i < |s.tasks| && Live(s, i) && JobOf(s, i).id == job.id
    requires Launched(s, i) ==> Repeats(JobOf(s, i))
    requires job.isCyclic || job.id !in s.cyclicTasks
    ensures NeverAdds(actions, job.id)
    ensures var s' := Apply(AddJob(s, job), Remove(job.id)); !NoNewLaunch(s', Run(s', actions), job.id)
  {
    var s1 := ReaddedState(s, i, job);
    EndingAfterRemoval(s1, job.id);
    actions := NotEndingLaunches(Apply(s1, Remove(job.id)), job.id);
  }

  lemma ReaddedState(s: Sched, i: nat, job: Job) returns (s1: Sched)
    requires Inv(s) && Ticking(s) && s.adding.None? && i < |s.tasks| && Live(s, i) && JobOf(s, i).id == job.id
    requires job.isCyclic || job.id !in s.cyclicTasks
    ensures s1 == AddJob(s, job) && Inv(s1) && Ticking(s1) && s1.adding.None? && IsStored(s1, job.id)
    ensures |s1.tasks| == |s.tasks| + 1 && Found(s1, job.id) == |s.tasks|
    ensures JobOf(s1, i) == JobOf(s, i) && Live(s1, i) && (Launched(s1, i) <==> Launched(s, i))
  {
    s1 := AddJob(s, job);
    StepKeepsInv(s, BeginAdd(job));
    StepKeepsInv(Apply(s, BeginAdd(job)), FinishAdd);
    AddedBeside(s, i, job);
  }

  /** An addition leaves every earlier timeout as it is. */
  lemma AddedBeside(s: Sched, i: nat, job: Job)
    requires Fits(s) && Ticking(s) && s.adding.None? && i < |s.tasks| && Live(s, i)
    requires job.isCyclic || job.id !in s.cyclicTasks
    ensures var s1 := AddJob(s, job);
      && Fits(s1) && Ticking(s1) && s1.adding.None? && IsStored(s1, job.id)
      && |s1.tasks| == |s.tasks| + 1 && Found(s1, job.id) == |s.tasks|
      && JobOf(s1, i) == JobOf(s, i) && Live(s1, i) && (Launched(s1, i) <==> Launched(s, i))
  {
    AddShape(s, job);
    WheelFiring.CreateShape(s.wheel, TruncDiv(FirstDelay(job), s.tickDuration));
  }
}
