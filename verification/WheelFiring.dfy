/** What the wheel promises over whole runs: when timeouts fire, and that none is lost or repeated. */
module WheelFiring {
  import opened Collections
  import opened Arithmetic
  import opened Wheel

  // ---------------------------------------------------------------- firing under every interleaving

  ghost predicate Reachable(w: Wheel) {
    exists size: nat, actions: seq<Action> :: size > 0 && w == Run(Initial(size), actions)
  }

  lemma ReachableInv(w: Wheel)
    requires Reachable(w)
    ensures Inv(w)
  {
    var size: nat, actions: seq<Action> :| size > 0 && w == Run(Initial(size), actions);
    InitialInv(size);
    RunKeepsInv(Initial(size), actions);
  }

  lemma ReachableInitial(size: nat)
    requires size > 0
    ensures Reachable(Initial(size))
  {
    assert Run(Initial(size), []) == Initial(size);
  }

  lemma ReachableStep(w: Wheel, a: Action)
    requires Reachable(w)
    ensures Reachable(Apply(w, a))
  {
    var size: nat, actions: seq<Action> :| size > 0 && w == Run(Initial(size), actions);
    assert (actions + [a])[..|actions|] == actions;
    assert Apply(w, a) == Run(Initial(size), actions + [a]);
  }

  /** Under every interleaving a timeout fires at most once and only at its due tick, which is a whole
      number of turns after its target; unless cancelled, it has fired once the due tick has been scanned. */
  lemma FiresExactlyWhenDue(w: Wheel, id: nat)
    requires Reachable(w) && id < |w.nodes| && w.nodes[id].placed.Some?
    ensures w.size > 0
    ensures Launched(w)[id] <= 1
    ensures forall k :: 0 <= k < |w.fired| && w.fired[k].id == id ==>
              w.fired[k].tick == Due(w, id) && MeetsDue(w.size, w.nodes[id].target, w.nodes[id].placed.value, w.fired[k].tick)
    ensures !w.nodes[id].cancelled ==> (id in FiredIds(w.fired) <==> Due(w, id) <= w.scanned)
  {
    ReachableInv(w);
    DueTickIsFirst(w.size, w.nodes[id].target, w.nodes[id].placed.value);
    forall k | 0 <= k < |w.fired| && w.fired[k].id == id
      ensures w.fired[k].tick == Due(w, id)
    {
      assert FiredOnDue(w, w.fired[k]);
    }
    FiredOrGone(w, id);
  }

  lemma FiredOrGone(w: Wheel, id: nat)
    requires Inv(w) && id < |w.nodes| && w.nodes[id].placed.Some?
    ensures Launched(w)[id] <= 1
    ensures !w.nodes[id].cancelled ==> (id in FiredIds(w.fired) <==> Due(w, id) <= w.scanned)
  {
    PlacedSomewhere(w, id);
    PlacedOnce(w, id);
    assert id in Waiting(w) || id in Launched(w) || id in Discarded(w);
  }

  lemma PlacedOnce(w: Wheel, id: nat)
    requires Conserved(w) && id < |w.nodes| && w.nodes[id].placed.Some?
    ensures Waiting(w)[id] + Launched(w)[id] + Discarded(w)[id] == 1
  {
    assert id in PlacedIds(w.nodes);
    CountOfThree(Waiting(w), Launched(w), Discarded(w), PlacedIds(w.nodes), id);
  }

  lemma CountOfThree(a: multiset<nat>, b: multiset<nat>, c: multiset<nat>, all: set<nat>, x: nat)
    requires a + b + c == multiset(all) && x in all
    ensures a[x] + b[x] + c[x] == 1
  {
    assert (a + b + c)[x] == multiset(all)[x];
  }

  /** Where a placed timeout can be: in its bucket before the due tick, among the fired after it, or dropped if cancelled. */
  lemma PlacedSomewhere(w: Wheel, id: nat)
    requires Inv(w) && id < |w.nodes| && w.nodes[id].placed.Some?
    ensures id in Flatten(w.buckets) ==> w.scanned < Due(w, id) && id in w.buckets[w.nodes[id].target % w.size]
    ensures id in FiredIds(w.fired) ==> Due(w, id) <= w.scanned
    ensures id in w.dropped ==> w.nodes[id].cancelled
  {
    if id in Flatten(w.buckets) {
      FlattenMember(w.buckets, id);
      var b :| 0 <= b < |w.buckets| && id in w.buckets[b];
      assert Waits(w, b, id);
    }
    if id in FiredIds(w.fired) {
      var k :| 0 <= k < |w.fired| && FiredIds(w.fired)[k] == id;
      assert FiredOnDue(w, w.fired[k]);
    }
    if id in w.dropped {
      var k :| 0 <= k < |w.dropped| && w.dropped[k] == id;
      assert Dropped(w, w.dropped[k]);
    }
  }

  // ---------------------------------------------------------------- the bucket scan against a scan of everything

  /** The uncancelled timeouts of a list that are due at tick n. */
  ghost function DueAmong(w: Wheel, ids: seq<nat>, n: int): seq<nat>
    requires w.size > 0
  {
    if ids == [] then [] else
      var last := ids[|ids| - 1];
      DueAmong(w, ids[..|ids| - 1], n)
      + (if last < |w.nodes| && w.nodes[last].placed.Some? && !w.nodes[last].cancelled && Due(w, last) == n
         then [last] else [])
  }

  lemma {:induction false} DueAmongAppend(w: Wheel, a: seq<nat>, b: seq<nat>, n: int)
    requires w.size > 0
    ensures DueAmong(w, a + b, n) == DueAmong(w, a, n) + DueAmong(w, b, n)
  {
    if b == [] {
      assert a + b == a;
    } else {
      var last := |b| - 1;
      DueAmongAppend(w, a, b[..last], n);
      assert (a + b)[..|a + b| - 1] == a + b[..last];
    }
  }

  lemma {:induction false} SiftIsDueAmong(w: Wheel, b: int, ids: seq<nat>)
    requires w.size > 0
    requires forall k :: 0 <= k < |ids| ==> Waits(w, b, ids[k]) && w.nodes[ids[k]].placed.value <= w.scanned
    ensures DueAmong(w, ids, w.scanned + 1)
         == if b == (w.scanned + 1) % w.size then Sift(w.nodes, ids, w.scanned + 1, Fire) else []
  {
    if ids != [] {
      var last := |ids| - 1;
      SiftIsDueAmong(w, b, ids[..last]);
      DueNow(w, b, ids[last]);
    }
  }

  lemma BucketDue(w: Wheel, b: nat)
    requires Inv(w) && b < w.size
    ensures DueAmong(w, w.buckets[b], w.scanned + 1)
         == if b == (w.scanned + 1) % w.size then Sift(w.nodes, w.buckets[b], w.scanned + 1, Fire) else []
  {
    SiftIsDueAmong(w, b, w.buckets[b]);
  }

  /** When only one of the lists has due timeouts, those are the due ones of all lists together. */
  lemma {:induction false} FlattenDue(w: Wheel, lists: seq<seq<nat>>, n: int, t: nat, due: seq<nat>)
    requires w.size > 0
    requires forall b :: 0 <= b < |lists| ==> DueAmong(w, lists[b], n) == if b == t then due else []
    ensures DueAmong(w, Flatten(lists), n) == if t < |lists| then due else []
  {
    if lists != [] {
      var front, last := lists[..|lists| - 1], lists[|lists| - 1];
      FlattenDue(w, front, n, t, due);
      DueAmongAppend(w, Flatten(front), last, n);
    }
  }

  lemma AllBucketsDue(w: Wheel, t: nat)
    requires Inv(w) && t == (w.scanned + 1) % w.size
    ensures t < w.size
    ensures DueAmong(w, Flatten(w.buckets), w.scanned + 1) == Sift(w.nodes, w.buckets[t], w.scanned + 1, Fire)
  {
    var due := Sift(w.nodes, w.buckets[t], w.scanned + 1, Fire);
    forall b: nat | b < w.size ensures DueAmong(w, w.buckets[b], w.scanned + 1) == if b == t then due else [] {
      BucketDue(w, b);
    }
    FlattenDue(w, w.buckets, w.scanned + 1, t, due);
  }

  function Create(w: Wheel, delayTicks: int): Wheel {
    Apply(Apply(w, Load(delayTicks)), Insert(|w.nodes|))
  }

  lemma CreateShape(w: Wheel, delayTicks: int)
    requires !w.stopped && |w.buckets| == w.size > 0 && HasBucket(w.size, w.tick + delayTicks)
    ensures var target := w.tick + delayTicks; var b := target % w.size;
      Create(w, delayTicks)
      == w.(nodes := w.nodes + [Node(target, false, Some(w.scanned))],
            buckets := w.buckets[b := w.buckets[b] + [|w.nodes|]])
  {
    var loaded := Apply(w, Load(delayTicks));
    assert loaded == w.(nodes := w.nodes + [Node(w.tick + delayTicks, false, None)]);
  }

  lemma ReachableCreate(w: Wheel, delayTicks: int)
    requires Reachable(w)
    ensures Reachable(Create(w, delayTicks))
  {
    ReachableStep(w, Load(delayTicks));
    ReachableStep(Apply(w, Load(delayTicks)), Insert(|w.nodes|));
  }

  function Tick(w: Wheel): Wheel {
    Apply(Apply(w, Advance), Scan)
  }

  lemma TickShape(w: Wheel)
    requires |w.buckets| == w.size > 0 && w.tick == w.scanned && !w.halted
    ensures var n := w.tick + 1; var b := n % w.size;
      Tick(w)
      == w.(tick := n, scanned := n,
            buckets := w.buckets[b := Sift(w.nodes, w.buckets[b], n, Keep)],
            fired := w.fired + Stamp(Sift(w.nodes, w.buckets[b], n, Fire), n),
            dropped := w.dropped + Sift(w.nodes, w.buckets[b], n, Drop))
  {
  }

  lemma ReachableTick(w: Wheel)
    requires Reachable(w)
    ensures Reachable(Tick(w))
  {
    ReachableStep(w, Advance);
    ReachableStep(Apply(w, Advance), Scan);
  }

  /** Scanning one bucket fires exactly what a search of the whole wheel for due timeouts would fire, in the same order. */
  lemma BucketScanIsFullScan(w: Wheel)
    requires Inv(w) && w.tick == w.scanned && !w.halted
    ensures Tick(w).tick == Tick(w).scanned == w.tick + 1
    ensures Tick(w).fired == w.fired + Stamp(DueAmong(w, Flatten(w.buckets), w.tick + 1), w.tick + 1)
  {
    var n := w.tick + 1;
    var t := n % w.size;
    TickFires(w, n, t);
    AllBucketsDue(w, t);
  }

  lemma TickFires(w: Wheel, n: int, t: nat)
    requires |w.buckets| == w.size > 0 && w.tick == w.scanned && !w.halted && n == w.tick + 1 && t == n % w.size
    ensures t < w.size && Tick(w).tick == Tick(w).scanned == n
    ensures Tick(w).fired == w.fired + Stamp(Sift(w.nodes, w.buckets[t], n, Fire), n)
  {
    TickShape(w);
  }

  // ---------------------------------------------------------------- runs in which creation and ticks are atomic

  datatype AtomicAction = NewTimeout(delayTicks: nat) | WholeTick | CancelTimeout(id: nat)

  function ApplyAtomic(w: Wheel, a: AtomicAction): Wheel {
    match a
    case NewTimeout(delayTicks) => Create(w, delayTicks)
    case WholeTick => Tick(w)
    case CancelTimeout(id) => Apply(w, Cancel(id))
  }

  function RunAtomic(w: Wheel, actions: seq<AtomicAction>): Wheel {
    if actions == [] then w
    else ApplyAtomic(RunAtomic(w, actions[..|actions| - 1]), actions[|actions| - 1])
  }

  /** Between atomic steps every timeout is placed and its delay counts from the tick at which it was placed. */
  ghost predicate AtomicInv(w: Wheel, minDelay: nat) {
    && Inv(w)
    && w.tick == w.scanned && !w.halted && !w.stopped
    && forall id :: 0 <= id < |w.nodes| ==>
         w.nodes[id].placed.Some? && w.nodes[id].target >= w.nodes[id].placed.value + minDelay
  }

  lemma AtomicCreateKeepsInv(w: Wheel, delayTicks: nat, minDelay: nat)
    requires AtomicInv(w, minDelay) && delayTicks >= minDelay
    ensures AtomicInv(ApplyAtomic(w, NewTimeout(delayTicks)), minDelay)
  {
    CreateShape(w, delayTicks);
    StepKeepsInv(w, Load(delayTicks));
    StepKeepsInv(Apply(w, Load(delayTicks)), Insert(|w.nodes|));
  }

  lemma AtomicStepKeepsInv(w: Wheel, a: AtomicAction, minDelay: nat)
    requires AtomicInv(w, minDelay)
    requires a.NewTimeout? ==> a.delayTicks >= minDelay
    ensures AtomicInv(ApplyAtomic(w, a), minDelay)
  {
    match a
    case NewTimeout(delayTicks) =>
      AtomicCreateKeepsInv(w, delayTicks, minDelay);
    case WholeTick =>
      TickShape(w);
      StepKeepsInv(w, Advance);
      StepKeepsInv(Apply(w, Advance), Scan);
    case CancelTimeout(id) =>
      StepKeepsInv(w, Cancel(id));
  }

  lemma {:induction false} AtomicRunKeepsInv(size: nat, actions: seq<AtomicAction>, minDelay: nat)
    requires size > 0
    requires forall k :: 0 <= k < |actions| && actions[k].NewTimeout? ==> actions[k].delayTicks >= minDelay
    ensures AtomicInv(RunAtomic(Initial(size), actions), minDelay)
  {
    if actions == [] {
      InitialInv(size);
    } else {
      var last := |actions| - 1;
      assert forall k :: 0 <= k < last ==> actions[..last][k] == actions[k];
      AtomicRunKeepsInv(size, actions[..last], minDelay);
      AtomicStepKeepsInv(RunAtomic(Initial(size), actions[..last]), actions[last], minDelay);
    }
  }

  /** The tick that a timeout waits for: its delay after the placement, or a whole turn when that is no tick. */
  function DelayedTick(size: nat, target: int, placedAt: int): int {
    placedAt + if target == placedAt then size else target - placedAt
  }

  /** A delay of at least one tick is kept to the tick; a shorter one fires after a whole turn of the wheel. */
  lemma AtomicDelay(size: nat, actions: seq<AtomicAction>, w: Wheel, id: nat)
    requires size > 0 && w == RunAtomic(Initial(size), actions) && id < |w.nodes|
    ensures w.size > 0 && w.nodes[id].placed.Some?
    ensures var n := DelayedTick(w.size, w.nodes[id].target, w.nodes[id].placed.value);
      && Due(w, id) == n && (forall k :: 0 <= k < |w.fired| && w.fired[k].id == id ==> w.fired[k].tick == n)
      && (!w.nodes[id].cancelled ==> (id in FiredIds(w.fired) <==> n <= w.tick))
  {
    AtomicRunKeepsInv(size, actions, 0);
    DueAfterDelay(w.size, w.nodes[id].target, w.nodes[id].placed.value);
    FiredOrGone(w, id);
    forall k | 0 <= k < |w.fired| && w.fired[k].id == id ensures w.fired[k].tick == Due(w, id) {
      assert FiredOnDue(w, w.fired[k]);
    }
  }

  lemma DueAfterDelay(size: nat, target: int, placedAt: int)
    requires size > 0 && target >= placedAt
    ensures DueTick(size, target, placedAt) == if target == placedAt then placedAt + size else target
  {
  }

  /** The timeouts of a list whose target is n. */
  ghost function TargetAmong(w: Wheel, ids: seq<nat>, n: int): seq<nat> {
    if ids == [] then [] else
      var last := ids[|ids| - 1];
      TargetAmong(w, ids[..|ids| - 1], n)
      + (if last < |w.nodes| && !w.nodes[last].cancelled && w.nodes[last].target == n then [last] else [])
  }

  lemma {:induction false} DueAmongIsTargetAmong(w: Wheel, ids: seq<nat>, n: int)
    requires AtomicInv(w, 1)
    ensures DueAmong(w, ids, n) == TargetAmong(w, ids, n)
  {
    if ids != [] {
      DueAmongIsTargetAmong(w, ids[..|ids| - 1], n);
      var last := ids[|ids| - 1];
      if last < |w.nodes| {
        DueTickIsFirst(w.size, w.nodes[last].target, w.nodes[last].placed.value);
      }
    }
  }

  /** With delays of at least one tick, each tick fires exactly the uncancelled timeouts of the whole wheel that target it. */
  lemma TickFiresTargets(size: nat, actions: seq<AtomicAction>, w: Wheel)
    requires size > 0 && w == RunAtomic(Initial(size), actions)
    requires forall k :: 0 <= k < |actions| && actions[k].NewTimeout? ==> actions[k].delayTicks >= 1
    ensures Tick(w).fired == w.fired + Stamp(TargetAmong(w, Flatten(w.buckets), w.tick + 1), w.tick + 1)
  {
    AtomicRunKeepsInv(size, actions, 1);
    TickFiresTargetsFrom(w);
  }

  lemma TickFiresTargetsFrom(w: Wheel)
    requires AtomicInv(w, 1)
    ensures Tick(w).fired == w.fired + Stamp(TargetAmong(w, Flatten(w.buckets), w.tick + 1), w.tick + 1)
  {
    BucketScanIsFullScan(w);
    DueAmongIsTargetAmong(w, Flatten(w.buckets), w.tick + 1);
  }

  // ---------------------------------------------------------------- conservation and reclamation

  /** Waiting, fired and dropped timeouts together are exactly the placed ones, so the bucket lengths count the waiting. */
  lemma WaitingCount(w: Wheel)
    requires Inv(w)
    ensures |Flatten(w.buckets)| == |PlacedIds(w.nodes)| - |w.fired| - |w.dropped|
  {
    assert |Waiting(w) + Launched(w) + Discarded(w)| == |Flatten(w.buckets)| + |w.fired| + |w.dropped|;
  }

  /** The first tick after `scanned` that visits the bucket of `target`. */
  function NextVisit(size: nat, target: int, scanned: int): int
    requires size > 0
  {
    scanned + 1 + (target - scanned - 1) % size
  }

  /** Any `size` consecutive ticks visit every bucket exactly once. */
  lemma OneVisitPerTurn(size: nat, target: int, scanned: int)
    requires size > 0
    ensures scanned < NextVisit(size, target, scanned) <= scanned + size
    ensures forall n :: scanned < n <= scanned + size ==>
              (n % size == target % size <==> n == NextVisit(size, target, scanned))
  {
    forall n | scanned < n <= scanned + size
      ensures n % size == target % size <==> n == NextVisit(size, target, scanned)
    {
      var d := n - scanned - 1;
      ModuloUnique(size, d, 0, d);
      SameResidue(size, n, target);
      SameResidue(size, d, target - scanned - 1);
    }
  }

  ghost predicate GoneByVisit(w: Wheel, id: nat, visit: int) {
    && id < |w.nodes| && w.nodes[id].cancelled && w.nodes[id].placed.Some?
    && (id in Flatten(w.buckets) ==> w.scanned < visit)
  }

  /** A step never puts back into a bucket a timeout that was placed before. */
  lemma StayedInBucket(w: Wheel, a: Action, id: nat, b: int)
    requires Inv(w) && 0 <= b < w.size && id < |w.nodes| && w.nodes[id].placed.Some?
    requires id in Apply(w, a).buckets[b]
    ensures id in w.buckets[b]
    ensures w.nodes[id].cancelled && b == w.tick % w.size && a.Scan? ==> !Enabled(w, a)
  {
    if a.Scan? && Enabled(w, a) && b == w.tick % w.size {
      SiftMember(w.nodes, w.buckets[b], w.tick, Keep, id);
    }
  }

  /** No step changes the target of a timeout, takes it out of place, or withdraws a cancellation. */
  lemma StepKeepsNode(w: Wheel, a: Action, id: nat)
    requires id < |w.nodes|
    ensures var w' := Apply(w, a);
      && w'.size == w.size && id < |w'.nodes| && w'.nodes[id].target == w.nodes[id].target
      && (w.nodes[id].cancelled ==> w'.nodes[id].cancelled)
      && (w.nodes[id].placed.Some? ==> w'.nodes[id].placed == w.nodes[id].placed)
      && w.scanned <= w'.scanned && (w'.scanned > w.scanned ==> a.Scan? && Enabled(w, a) && w'.scanned == w.tick)
  {
  }

  lemma StepReclaims(w: Wheel, a: Action, id: nat, visit: int)
    requires Inv(w) && GoneByVisit(w, id, visit) && visit % w.size == w.nodes[id].target % w.size
    ensures GoneByVisit(Apply(w, a), id, visit)
    ensures Apply(w, a).nodes[id].target == w.nodes[id].target && Apply(w, a).size == w.size
  {
    StepKeepsNode(w, a, id);
    if id in Flatten(Apply(w, a).buckets) {
      StepKeepsInv(w, a);
      StillWaiting(w, a, id);
      NotReached(w.size, w.tick, w.scanned, Apply(w, a).scanned, visit);
    }
  }

  lemma NotReached(size: nat, tick: int, scanned: int, scanned': int, visit: int)
    requires size > 0 && scanned < visit && tick <= scanned + 1
    requires scanned <= scanned' && (scanned' > scanned ==> scanned' == tick && visit % size != tick % size)
    ensures scanned' < visit
  {
  }

  lemma StillWaiting(w: Wheel, a: Action, id: nat)
    requires Inv(w) && Inv(Apply(w, a)) && id < |w.nodes| && w.nodes[id].placed.Some?
    requires id in Flatten(Apply(w, a).buckets)
    ensures id in Flatten(w.buckets)
    ensures w.nodes[id].cancelled && Enabled(w, a) && a.Scan? ==> w.nodes[id].target % w.size != w.tick % w.size
  {
    StepKeepsNode(w, a, id);
    PlacedSomewhere(Apply(w, a), id);
    var b := w.nodes[id].target % w.size;
    StayedInBucket(w, a, id, b);
    FlattenMember(w.buckets, id);
  }

  lemma {:induction false} RunReclaims(w: Wheel, actions: seq<Action>, id: nat, visit: int)
    requires Inv(w) && GoneByVisit(w, id, visit) && visit % w.size == w.nodes[id].target % w.size
    ensures GoneByVisit(Run(w, actions), id, visit)
    ensures Run(w, actions).nodes[id].target == w.nodes[id].target && Run(w, actions).size == w.size
  {
    if actions != [] {
      var before := actions[..|actions| - 1];
      RunReclaims(w, before, id, visit);
      RunKeepsInv(w, before);
      StepReclaims(Run(w, before), actions[|actions| - 1], id, visit);
    }
  }

  /** Whatever happens meanwhile, a cancelled timeout has left the wheel after one more turn. */
  lemma CancelledLeavesWithinOneTurn(w: Wheel, actions: seq<Action>, id: nat)
    requires Inv(w) && id < |w.nodes| && w.nodes[id].cancelled && w.nodes[id].placed.Some?
    requires Run(w, actions).scanned >= w.scanned + w.size
    ensures id !in Flatten(Run(w, actions).buckets)
  {
    var visit := NextVisit(w.size, w.nodes[id].target, w.scanned);
    OneVisitPerTurn(w.size, w.nodes[id].target, w.scanned);
    RunReclaims(w, actions, id, visit);
  }

  /** Once the timer loop has exited, no run fires anything more. */
  lemma {:induction false} NothingFiresAfterHalt(w: Wheel, actions: seq<Action>)
    requires w.halted && w.tick == w.scanned
    ensures Run(w, actions).fired == w.fired
    ensures Run(w, actions).halted && Run(w, actions).tick == Run(w, actions).scanned
  {
    if actions != [] {
      NothingFiresAfterHalt(w, actions[..|actions| - 1]);
    }
  }
}
