/** What the scheduler promises over whole runs, for every interleaving of its steps. */
module SchedulerRuns {
  import opened Collections
  import opened Arithmetic
  import opened Timing
  import W = Wheel
  import opened Scheduler

  ghost predicate Reachable(s: Sched) {
    exists size: nat, tickDuration: int, actions: seq<Action> ::
      size > 0 && tickDuration > 0 && s == Run(Initial(size, tickDuration), actions)
  }

  lemma ReachableInv(s: Sched)
    requires Reachable(s)
    ensures Inv(s)
  {
    var size: nat, tickDuration: int, actions: seq<Action> :|
      size > 0 && tickDuration > 0 && s == Run(Initial(size, tickDuration), actions);
    InitialInv(size, tickDuration);
    RunKeepsInv(Initial(size, tickDuration), actions);
  }

  lemma ReachableInitial(size: nat, tickDuration: int)
    requires size > 0 && tickDuration > 0
    ensures Reachable(Initial(size, tickDuration))
  {
    assert Run(Initial(size, tickDuration), []) == Initial(size, tickDuration);
  }

  lemma ReachableStep(s: Sched, a: Action)
    requires Reachable(s)
    ensures Reachable(Apply(s, a))
  {
    var size: nat, tickDuration: int, actions: seq<Action> :|
      size > 0 && tickDuration > 0 && s == Run(Initial(size, tickDuration), actions);
    assert (actions + [a])[..|actions|] == actions;
    assert Apply(s, a) == Run(Initial(size, tickDuration), actions + [a]);
  }

  // ---------------------------------------------------------------- chains

  /** A timeout is live while it can still fire or while its execution has not come to its end. */
  ghost predicate Live(s: Sched, i: nat)
    requires Fits(s) && i < |s.tasks|
  {
    match s.tasks[i].stage
    case Queued => Launched(s, i) || !s.wheel.nodes[i].cancelled
    case Recorded => true
    case Dispatching => true
    case Completed => true
    case _ => false
  }

  ghost function LiveTasks(s: Sched, jobId: int): set<nat>
    requires Fits(s)
  {
    set i: nat | i < |s.tasks| && Live(s, i) && JobOf(s, i).id == jobId
  }

  ghost function Additions(s: Sched, jobId: int): set<nat> {
    set c: nat | c < |s.chains| && s.chains[c].id == jobId
  }

  /** Of two timeouts of one chain the earlier is past. */
  lemma EarlierIsPast(s: Sched)
    requires Inv(s)
    ensures forall i: nat, j: nat :: i < j < |s.tasks| && s.tasks[i].chain == s.tasks[j].chain ==> !Live(s, i)
  {
    forall i: nat, j: nat | i < j < |s.tasks| && s.tasks[i].chain == s.tasks[j].chain ensures !Live(s, i) {
      assert InOrder(s, i, j);
    }
  }

  /** Waiting timeouts and unfinished executions of a job never outnumber the times it was added;
      a job added once never overlaps itself. */
  lemma ChainConservation(s: Sched, jobId: int)
    requires Reachable(s)
    ensures Fits(s) && |LiveTasks(s, jobId)| <= |Additions(s, jobId)|
    ensures |Additions(s, jobId)| == 1 ==>
              forall i, j :: i in LiveTasks(s, jobId) && j in LiveTasks(s, jobId) ==> i == j
  {
    ReachableInv(s);
    EarlierIsPast(s);
    var live := LiveTasks(s, jobId);
    InjectionBound(live, Additions(s, jobId), map i | i in live :: s.tasks[i].chain);
    if |Additions(s, jobId)| == 1 {
      var c :| c in Additions(s, jobId);
      assert |Additions(s, jobId) - {c}| == 0;
      forall i | i in live ensures s.tasks[i].chain == c {
        assert s.tasks[i].chain in Additions(s, jobId);
      }
    }
  }

  // ---------------------------------------------------------------- spacing

  /** The gap is the number of whole ticks in the interval, which counts seconds. */
  lemma GapIs(s: Sched, chain: nat)
    requires s.tickDuration > 0 && chain < |s.chains|
    ensures var delay := s.chains[chain].defaultInterval * 1_000_000_000;
      && (delay >= 0 ==> Gap(s, chain) * s.tickDuration <= delay < (Gap(s, chain) + 1) * s.tickDuration)
      && (delay < 0 ==> (Gap(s, chain) - 1) * s.tickDuration < delay <= Gap(s, chain) * s.tickDuration)
  {
    var delay := s.chains[chain].defaultInterval * 1_000_000_000;
    assert delay == NextDelay(s.chains[chain]);
    TruncDivIs(delay, s.tickDuration);
  }

  /** A new job aims its interval ahead, which counts milliseconds, or ten seconds if it has none. */
  lemma FirstTarget(s: Sched, job: Job)
    requires Fits(s) && s.adding.None? && !s.wheel.stopped
    ensures var nodes := Apply(s, BeginAdd(job)).wheel.nodes;
      && |nodes| == |s.tasks| + 1
      && var ticks := nodes[|s.tasks|].target - s.wheel.tick;
         var delay := if job.defaultInterval > 0 then job.defaultInterval * 1_000_000 else 10_000_000_000;
         ticks * s.tickDuration <= delay < (ticks + 1) * s.tickDuration
  {
    var delay := if job.defaultInterval > 0 then job.defaultInterval * 1_000_000 else 10_000_000_000;
    TruncDivIs(delay, s.tickDuration);
    TruncDivOfNonNegative(delay, s.tickDuration);
  }

  /** A completed execution aims its successor its interval ahead, which counts seconds. */
  lemma NextTarget(s: Sched, id: nat)
    requires Inv(s) && At(s, id, Completed) && !s.wheel.stopped
    ensures var nodes := Apply(s, BeginReschedule(id)).wheel.nodes;
      && |nodes| == |s.tasks| + 1
      && var ticks := nodes[|s.tasks|].target - s.wheel.tick;
         ticks * s.tickDuration <= JobOf(s, id).defaultInterval * 1_000_000_000 < (ticks + 1) * s.tickDuration
  {
    assert TaskOk(s, id);
    var delay := JobOf(s, id).defaultInterval * 1_000_000_000;
    TruncDivIs(delay, s.tickDuration);
    TruncDivOfNonNegative(delay, s.tickDuration);
  }

  /** Consecutive launches of a cyclic chain are at least the interval apart. */
  lemma LaunchesAreSpaced(s: Sched, i: nat, j: nat)
    requires Reachable(s) && i < j < |s.tasks| && s.tasks[i].chain == s.tasks[j].chain && Launched(s, j)
    ensures Fits(s) && Placed(s, i) && Placed(s, j)
    ensures W.Due(s.wheel, j) >= W.Due(s.wheel, i) + Gap(s, s.tasks[i].chain)
  {
    ReachableInv(s);
    assert InOrder(s, i, j);
    LaunchedIsDue(s, j);
  }

  /** In nanoseconds: the ticks between two launches, and the part of another one, last longer than the interval. */
  lemma LaunchesLast(s: Sched, i: nat, j: nat)
    requires Reachable(s) && i < j < |s.tasks| && s.tasks[i].chain == s.tasks[j].chain && Launched(s, j)
    ensures Fits(s) && Placed(s, i) && Placed(s, j)
    ensures (W.Due(s.wheel, j) - W.Due(s.wheel, i) + 1) * s.tickDuration > JobOf(s, i).defaultInterval * 1_000_000_000
  {
    LaunchesAreSpaced(s, i, j);
    GapLasts(s, s.tasks[i].chain, W.Due(s.wheel, j) - W.Due(s.wheel, i));
  }

  /** So many ticks, and the part of another one, last longer than the interval. */
  lemma GapLasts(s: Sched, chain: nat, ticks: int)
    requires s.tickDuration > 0 && chain < |s.chains| && ticks >= Gap(s, chain)
    ensures (ticks + 1) * s.tickDuration > s.chains[chain].defaultInterval * 1_000_000_000
  {
    GapIs(s, chain);
    NoFewer(Gap(s, chain), ticks, s.tickDuration);
  }

  lemma NoFewer(a: int, b: int, x: int)
    requires a <= b && x > 0
    ensures (a + 1) * x <= (b + 1) * x && a * x <= b * x
  {
    assert (b - a) * x >= 0;
  }

  /** The executions of a chain that were launched in the window of ticks [from, from + span]. */
  ghost function LaunchesIn(s: Sched, chain: nat, from: int, span: nat): set<nat>
    requires Fits(s)
  {
    set i: nat | i < |s.tasks| && s.tasks[i].chain == chain && Launched(s, i)
                 && Placed(s, i) && from <= W.Due(s.wheel, i) <= from + span
  }

  /** Events in a window that come at least a gap apart are at most 1 + span / gap. */
  lemma SpacedEvents(times: map<nat, int>, from: int, span: nat, gap: nat)
    requires gap > 0
    requires forall i :: i in times ==> from <= times[i] <= from + span
    requires forall i, j :: i in times && j in times && i < j ==> times[j] >= times[i] + gap
    ensures |times.Keys| <= 1 + span / gap
  {
    var slot := Slots(times, from, span, gap);
    InjectionBound(times.Keys, Below(1 + span / gap), slot);
  }

  lemma Slots(times: map<nat, int>, from: int, span: nat, gap: nat) returns (slot: map<nat, nat>)
    requires gap > 0
    requires forall i :: i in times ==> from <= times[i] <= from + span
    requires forall i, j :: i in times && j in times && i < j ==> times[j] >= times[i] + gap
    ensures slot.Keys == times.Keys
    ensures forall i :: i in slot ==> slot[i] < 1 + span / gap
    ensures forall i, j :: i in slot && j in slot && i < j ==> slot[i] < slot[j]
  {
    slot := map i | i in times :: Slot(times[i], from, gap);
    forall i | i in times ensures Slot(times[i], from, gap) < 1 + span / gap {
      DivMonotone(gap, times[i] - from, span);
    }
    forall i, j | i in times && j in times && i < j
      ensures Slot(times[i], from, gap) < Slot(times[j], from, gap)
    {
      SlotsApart(gap, times[i] - from, times[j] - from);
    }
  }

  function Slot(time: int, from: int, gap: nat): nat
    requires gap > 0 && time >= from
  {
    DivMonotone(gap, 0, time - from);
    (time - from) / gap
  }

  /** A chain is launched at most 1 + span / gap times in any window of that many ticks. */
  lemma LaunchRate(s: Sched, chain: nat, from: int, span: nat)
    requires Reachable(s) && chain < |s.chains|
    ensures Fits(s)
    ensures Gap(s, chain) > 0 ==> |LaunchesIn(s, chain, from, span)| <= 1 + span / Gap(s, chain)
  {
    ReachableInv(s);
    if Gap(s, chain) > 0 {
      var launches := LaunchesIn(s, chain, from, span);
      var times := map i | i in launches :: W.Due(s.wheel, i);
      forall i, j | i in launches && j in launches && i < j ensures times[j] >= times[i] + Gap(s, chain) {
        LaunchesAreSpaced(s, i, j);
      }
      SpacedEvents(times, from, span, Gap(s, chain));
      assert times.Keys == launches;
    }
  }
}
