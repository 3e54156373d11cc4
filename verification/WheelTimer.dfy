/** The timer in its own imperative form, proved to take exactly the steps of the transition system. */
module WheelTimer {
  import opened Collections
  import opened Timing
  import opened Wheel
  import opened WheelFiring

  /** A scheduled execution of a job.  `id` stands for the identity of the object. */
  class Timeout {
    ghost const id: nat
    const job: Job
    var cancelled: bool
    var wheelIndex: int
    var bucketIndex: int
    ghost var placed: Option<int>

    constructor (ghost id: nat, job: Job)
      ensures this.id == id && this.job == job && !cancelled && placed == None
    {
      this.id, this.job := id, job;
      cancelled, wheelIndex, bucketIndex, placed := false, 0, 0, None;
    }

    ghost function Model(): Node
      reads this
    {
      Node(wheelIndex, cancelled, placed)
    }

    /** Cancels the timeout; false when it was cancelled before. */
    method Cancel() returns (first: bool)
      modifies `cancelled
      ensures cancelled && first == !old(cancelled)
    {
      if cancelled {
        return false;
      }
      cancelled := true;
      return true;
    }
  }

  ghost function Ids(timeouts: seq<Timeout>): seq<nat> {
    seq(|timeouts|, k requires 0 <= k < |timeouts| => timeouts[k].id)
  }

  lemma IdsAppend(timeouts: seq<Timeout>, more: seq<Timeout>)
    ensures Ids(timeouts + more) == Ids(timeouts) + Ids(more)
  {
  }

  ghost predicate Known(created: seq<Timeout>, t: Timeout) {
    t.id < |created| && created[t.id] == t
  }

  ghost predicate AllKnown(created: seq<Timeout>, timeouts: seq<Timeout>) {
    forall k :: 0 <= k < |timeouts| ==> Known(created, timeouts[k])
  }

  /** Of the bucket, those that are not cancelled and whose target the tick has reached. */
  ghost predicate AreDue(due: seq<Timeout>, bucket: seq<Timeout>, tick: int)
    reads bucket
  {
    (forall t :: t in due ==> t in bucket) && forall t :: t in bucket ==> (t in due <==> !t.cancelled && t.wheelIndex <= tick)
  }

  /** Of the bucket, those that are not cancelled and whose target is still ahead. */
  ghost predicate AreLeft(remaining: seq<Timeout>, bucket: seq<Timeout>, tick: int)
    reads bucket
  {
    (forall t :: t in remaining ==> t in bucket) && forall t :: t in bucket ==> (t in remaining <==> !t.cancelled && t.wheelIndex > tick)
  }

  lemma IdsMember(created: seq<Timeout>, timeouts: seq<Timeout>, t: Timeout)
    requires AllKnown(created, timeouts) && Known(created, t)
    ensures t.id in Ids(timeouts) <==> t in timeouts
  {
    if t in timeouts {
      var k :| 0 <= k < |timeouts| && timeouts[k] == t;
      assert Ids(timeouts)[k] == t.id;
    }
    if t.id in Ids(timeouts) {
      var k :| 0 <= k < |timeouts| && Ids(timeouts)[k] == t.id;
      assert timeouts[k] == created[t.id];
    }
  }

  /** What the ids say of the lists. */
  lemma SplitMembers(bucket: seq<Timeout>, due: seq<Timeout>, remaining: seq<Timeout>, tick: int,
                     created: seq<Timeout>, nodes: seq<Node>)
    requires |nodes| == |created| && forall i :: 0 <= i < |created| ==> nodes[i] == created[i].Model()
    requires AllKnown(created, bucket) && AllKnown(created, due) && AllKnown(created, remaining)
    requires Ids(due) == Sift(nodes, Ids(bucket), tick, Fire) && Ids(remaining) == Sift(nodes, Ids(bucket), tick, Keep)
    ensures AreDue(due, bucket, tick) && AreLeft(remaining, bucket, tick)
  {
    forall t: Timeout | t in bucket || t in due || t in remaining
      ensures t in due <==> t in bucket && !t.cancelled && t.wheelIndex <= tick
      ensures t in remaining <==> t in bucket && !t.cancelled && t.wheelIndex > tick
    {
      assert Known(created, t);
      IdsMember(created, bucket, t);
      IdsMember(created, due, t);
      IdsMember(created, remaining, t);
      SiftMember(nodes, Ids(bucket), tick, Fire, t.id);
      SiftMember(nodes, Ids(bucket), tick, Keep, t.id);
    }
  }

  /** Splits a bucket into the timeouts to keep, to launch and to discard. */
  method SplitBucket(bucket: seq<Timeout>, tick: int, ghost created: seq<Timeout>, ghost nodes: seq<Node>)
    returns (remaining: seq<Timeout>, due: seq<Timeout>)
    requires |nodes| == |created| && forall i :: 0 <= i < |created| ==> nodes[i] == created[i].Model()
    requires AllKnown(created, bucket)
    ensures AllKnown(created, remaining)
    ensures AllKnown(created, due)
    ensures Ids(remaining) == Sift(nodes, Ids(bucket), tick, Keep)
    ensures Ids(due) == Sift(nodes, Ids(bucket), tick, Fire)
    ensures AreDue(due, bucket, tick) && AreLeft(remaining, bucket, tick)
  {
    remaining, due := [], [];
    for i := 0 to |bucket|
      invariant AllKnown(created, remaining)
      invariant AllKnown(created, due)
      invariant Ids(remaining) == Sift(nodes, Ids(bucket[..i]), tick, Keep)
      invariant Ids(due) == Sift(nodes, Ids(bucket[..i]), tick, Fire)
    {
      var timeout := bucket[i];
      assert Ids(bucket[..i + 1])[..i] == Ids(bucket[..i]);
      if timeout.cancelled {
        continue;
      }
      if tick >= timeout.wheelIndex {
        due := due + [timeout];
      } else {
        remaining := remaining + [timeout];
      }
    }
    assert bucket[..|bucket|] == bucket;
    SplitMembers(bucket, due, remaining, tick, created, nodes);
  }

  ghost predicate AllStored(created: seq<Timeout>, m: map<int, Timeout>) {
    forall k :: k in m ==> Known(created, m[k])
  }

  ghost function Positions(m: map<int, Timeout>): map<int, nat> {
    map k | k in m :: m[k].id
  }

  /** The positions of the timeouts stored under some of the keys. */
  ghost function PositionsOf(m: map<int, Timeout>, keys: set<int>): set<nat> {
    set k | k in keys && k in m :: m[k].id
  }

  lemma PositionsGrow(m: map<int, Timeout>, left: set<int>, k: int)
    requires k in left && k in m
    ensures PositionsOf(m, m.Keys - (left - {k})) == PositionsOf(m, m.Keys - left) + {m[k].id}
  {
  }

  lemma PositionsOfAll(m: map<int, Timeout>)
    ensures PositionsOf(m, m.Keys) == ValuesOf(Positions(m))
  {
    var all := Positions(m);
    assert all.Keys == m.Keys;
    assert forall k :: k in m ==> all[k] == m[k].id;
    assert PositionsOf(m, m.Keys) <= ValuesOf(all);
    assert ValuesOf(all) <= PositionsOf(m, m.Keys);
  }

  lemma CancelStep(w: Wheel, ids: set<nat>, id: nat)
    requires id < |w.nodes|
    ensures Apply(w.(nodes := Cancelled(w.nodes, ids)), Cancel(id)) == w.(nodes := Cancelled(w.nodes, ids + {id}))
  {
    var nodes := Cancelled(w.nodes, ids);
    assert nodes[id := nodes[id].(cancelled := true)] == Cancelled(w.nodes, ids + {id});
  }

  class HashedWheelTimer {
    const wheelSize: nat
    const tickDuration: int
    const wheel: array<seq<Timeout>>
    var currentTick: int
    var stopped: bool
    /** The timeouts whose tasks were launched, in launch order. */
    var launched: seq<Timeout>
    ghost var created: seq<Timeout>
    /** The state of the transition system that this object is in. */
    ghost var model: Wheel

    ghost predicate NodesLinked()
      reads this, created
    {
      && |model.nodes| == |created|
      && forall i :: 0 <= i < |created| ==> created[i].id == i && model.nodes[i] == created[i].Model()
    }

    ghost predicate BucketsLinked()
      reads this, wheel
    {
      && |model.buckets| == model.size == wheelSize == wheel.Length
      && forall b :: 0 <= b < wheel.Length ==> AllKnown(created, wheel[b]) && model.buckets[b] == Ids(wheel[b])
    }

    /** The fields say what the state says. */
    ghost predicate Linked()
      reads this, wheel, created
    {
      && tickDuration > 0 && wheelSize > 0
      && NodesLinked() && BucketsLinked()
      && model.tick == model.scanned == currentTick
      && model.stopped == stopped && (model.halted ==> stopped)
      && AllKnown(created, launched) && FiredIds(model.fired) == Ids(launched)
    }

    ghost predicate Valid()
      reads this, wheel, created
    {
      Linked() && Reachable(model)
    }

    /** Non-positive arguments select 512 buckets and ticks of 100 milliseconds. */
    constructor (wheelSize: int, tickDuration: int)
      ensures Valid() && fresh(wheel) && created == []
      ensures this.wheelSize == (if wheelSize <= 0 then 512 else wheelSize)
      ensures this.tickDuration == (if tickDuration <= 0 then 100_000_000 else tickDuration)
      ensures model == Initial(this.wheelSize)
      ensures currentTick == 0 && !stopped && launched == [] && forall b :: 0 <= b < wheel.Length ==> wheel[b] == []
    {
      var size := if wheelSize <= 0 then DEFAULT_WHEEL_SIZE else wheelSize;
      this.wheelSize := size;
      this.tickDuration := if tickDuration <= 0 then DEFAULT_TICK else tickDuration;
      wheel := new seq<Timeout>[size](_ => []);
      currentTick, stopped, launched, created := 0, false, [], [];
      model := Initial(size);
      ReachableInitial(size);
    }

    /** Creates a timeout and puts it into the bucket of its target tick; null once the timer is stopped. */
    method NewTimeout(job: Job, delay: int) returns (timeout: Timeout?)
      requires Valid()
      requires !stopped ==>
        var target := currentTick + TruncDiv(delay, tickDuration);
        target >= 0 || target % wheelSize == 0
      modifies this`created, this`model, wheel
      ensures Valid()
      ensures stopped ==> timeout == null && model == old(model) && created == old(created)
      ensures !stopped ==> timeout != null && fresh(timeout) && timeout.job == job && timeout.id == |old(created)|
      ensures !stopped ==> created == old(created) + [timeout]
      ensures !stopped ==> model == Create(old(model), TruncDiv(delay, tickDuration))
      ensures !stopped ==> timeout.wheelIndex == currentTick + TruncDiv(delay, tickDuration)
      ensures !stopped && delay >= 0 ==>
        (timeout.wheelIndex - currentTick) * tickDuration <= delay < (timeout.wheelIndex - currentTick + 1) * tickDuration
      ensures !stopped && delay < 0 ==>
        (timeout.wheelIndex - currentTick - 1) * tickDuration < delay <= (timeout.wheelIndex - currentTick) * tickDuration
      ensures !stopped ==> !timeout.cancelled && 0 <= timeout.bucketIndex == timeout.wheelIndex % wheelSize
      ensures forall b :: 0 <= b < wheel.Length ==>
        wheel[b] == old(wheel[b]) + if !stopped && b == timeout.bucketIndex then [timeout] else []
    {
      if stopped {
        return null;
      }
      TruncDivIs(delay, tickDuration);
      var t := new Timeout(|created|, job);
      var totalTicks := TruncDiv(delay, tickDuration);
      var targetTick := currentTick + totalTicks;
      var b := targetTick % wheelSize;
      t.wheelIndex, t.bucketIndex, t.placed := targetTick, b, Some(currentTick);
      AddToBucket(t, totalTicks);
      return t;
    }

    /** The insertion proper: appends a timeout that carries its target to the bucket of that target. */
    method AddToBucket(t: Timeout, ghost delayTicks: int)
      requires Valid() && !stopped && t !in created && t.id == |created|
      requires t.wheelIndex == currentTick + delayTicks && HasBucket(wheelSize, t.wheelIndex)
      requires t.bucketIndex == t.wheelIndex % wheelSize && !t.cancelled && t.placed == Some(currentTick)
      modifies this`created, this`model, wheel
      ensures Valid()
      ensures created == old(created) + [t]
      ensures model == Create(old(model), delayTicks)
      ensures forall b :: 0 <= b < wheel.Length ==> wheel[b] == old(wheel[b]) + if b == t.bucketIndex then [t] else []
    {
      var b := t.bucketIndex;
      IdsAppend(wheel[b], [t]);
      wheel[b] := wheel[b] + [t];
      created := created + [t];
      CreateShape(model, delayTicks);
      ReachableCreate(model, delayTicks);
      model := Create(model, delayTicks);
    }

    /** One tick: advance the counter, then launch, keep or discard every timeout of the bucket it points to. */
    method ProcessTick()
      requires Valid() && !model.halted
      modifies this`currentTick, this`launched, this`model, wheel
      ensures Valid()
      ensures model == Tick(old(model))
      ensures old(launched) <= launched && currentTick == old(currentTick) + 1
      ensures AreDue(launched[|old(launched)|..], old(wheel[(currentTick + 1) % wheelSize]), currentTick)
      ensures AreLeft(wheel[currentTick % wheelSize], old(wheel[(currentTick + 1) % wheelSize]), currentTick)
      ensures forall b :: 0 <= b < wheel.Length && b != currentTick % wheelSize ==> wheel[b] == old(wheel[b])
    {
      ReachableTick(model);
      Turn();
    }

    method Turn()
      requires Linked() && !model.halted
      modifies this`currentTick, this`launched, this`model, wheel
      ensures Linked() && model == Tick(old(model))
      ensures old(launched) <= launched && currentTick == old(currentTick) + 1
      ensures AreDue(launched[|old(launched)|..], old(wheel[(currentTick + 1) % wheelSize]), currentTick)
      ensures AreLeft(wheel[currentTick % wheelSize], old(wheel[(currentTick + 1) % wheelSize]), currentTick)
      ensures forall b :: 0 <= b < wheel.Length && b != currentTick % wheelSize ==> wheel[b] == old(wheel[b])
    {
      TickShape(model);
      currentTick := currentTick + 1;
      ScanBucket(currentTick % wheelSize);
    }

    /** The scan of one bucket, and what it makes of the state. */
    method ScanBucket(b: nat)
      requires NodesLinked() && BucketsLinked() && b < wheelSize
      requires AllKnown(created, launched) && FiredIds(model.fired) == Ids(launched)
      modifies this`launched, this`model, wheel
      ensures NodesLinked() && BucketsLinked() && AllKnown(created, launched) && FiredIds(model.fired) == Ids(launched)
      ensures var w := old(model); model == w.(tick := currentTick, scanned := currentTick,
        buckets := w.buckets[b := Sift(w.nodes, w.buckets[b], currentTick, Keep)],
        fired := w.fired + Stamp(Sift(w.nodes, w.buckets[b], currentTick, Fire), currentTick),
        dropped := w.dropped + Sift(w.nodes, w.buckets[b], currentTick, Drop))
      ensures old(launched) <= launched && AreDue(launched[|old(launched)|..], old(wheel[b]), currentTick)
      ensures AreLeft(wheel[b], old(wheel[b]), currentTick)
      ensures forall c :: 0 <= c < wheel.Length && c != b ==> wheel[c] == old(wheel[c])
    {
      ghost var w := model;
      ghost var due := LaunchDue(b);
      FiredIdsAppend(w.fired, Ids(due), currentTick);
      model := w.(tick := currentTick, scanned := currentTick,
        buckets := w.buckets[b := Sift(w.nodes, w.buckets[b], currentTick, Keep)],
        fired := w.fired + Stamp(Sift(w.nodes, w.buckets[b], currentTick, Fire), currentTick),
        dropped := w.dropped + Sift(w.nodes, w.buckets[b], currentTick, Drop));
    }

    /** Keeps what has to stay in the bucket and launches what is due. */
    method LaunchDue(b: nat) returns (ghost due: seq<Timeout>)
      requires NodesLinked() && BucketsLinked() && b < wheelSize && AllKnown(created, launched)
      modifies this`launched, wheel
      ensures AllKnown(created, launched) && Ids(due) == Sift(model.nodes, model.buckets[b], currentTick, Fire)
      ensures Ids(launched) == old(Ids(launched)) + Ids(due)
      ensures old(launched) <= launched && launched[|old(launched)|..] == due
      ensures forall c :: 0 <= c < wheel.Length ==> AllKnown(created, wheel[c])
      ensures forall c :: 0 <= c < wheel.Length ==>
        Ids(wheel[c]) == if c == b then Sift(model.nodes, model.buckets[b], currentTick, Keep) else model.buckets[c]
      ensures AreDue(due, old(wheel[b]), currentTick) && AreLeft(wheel[b], old(wheel[b]), currentTick)
      ensures forall c :: 0 <= c < wheel.Length && c != b ==> wheel[c] == old(wheel[c])
    {
      var remaining, launching := SplitBucket(wheel[b], currentTick, created, model.nodes);
      wheel[b] := remaining;
      IdsAppend(launched, launching);
      launched, due := launched + launching, launching;
    }

    /** Cancels one of this timer's timeouts. */
    method CancelTimeout(timeout: Timeout)
      requires Valid() && Known(created, timeout)
      modifies this`model, timeout`cancelled
      ensures Valid()
      ensures model == Apply(old(model), Cancel(timeout.id)) && timeout.cancelled
    {
      var _ := timeout.Cancel();
      ReachableStep(model, Cancel(timeout.id));
      model := Apply(model, Cancel(timeout.id));
    }

    /** Cancels every timeout of one map. */
    method CancelAll(tasks: map<int, Timeout>)
      requires Valid() && AllStored(created, tasks)
      modifies this`model, created
      ensures Valid()
      ensures model == old(model).(nodes := Cancelled(old(model).nodes, PositionsOf(tasks, tasks.Keys)))
      ensures forall k :: k in tasks ==> tasks[k].cancelled
      ensures forall i :: 0 <= i < |created| && i !in PositionsOf(tasks, tasks.Keys) ==>
        created[i].cancelled == old(created[i].cancelled)
    {
      var left := tasks.Keys;
      ghost var before := model;
      assert PositionsOf(tasks, {}) == {} && Cancelled(before.nodes, {}) == before.nodes;
      while left != {}
        invariant Valid() && left <= tasks.Keys
        invariant model == before.(nodes := Cancelled(before.nodes, PositionsOf(tasks, tasks.Keys - left)))
      {
        var k := Choose(left);
        CancelTimeout(tasks[k]);
        CancelStep(before, PositionsOf(tasks, tasks.Keys - left), tasks[k].id);
        PositionsGrow(tasks, left, k);
        left := left - {k};
      }
      assert tasks.Keys - {} == tasks.Keys;
      forall k | k in tasks ensures tasks[k].cancelled {
        assert model.nodes[tasks[k].id] == tasks[k].Model();
      }
    }

    /** Sets the stop flag; false when it was set before.  The loop may still tick. */
    method MarkStopped() returns (first: bool)
      requires Valid()
      modifies this`stopped, this`model
      ensures Valid() && stopped && first == !old(stopped)
      ensures model == Apply(old(model), Action.Stop)
    {
      ReachableStep(model, Action.Stop);
      model := Apply(model, Action.Stop);
      first := !stopped;
      stopped := true;
    }

    /** Waits until the loop has exited. */
    method AwaitExit()
      requires Valid() && stopped
      modifies this`model
      ensures Valid() && model == Apply(old(model), Halt) && model.halted
    {
      ReachableStep(model, Halt);
      model := Apply(model, Halt);
    }

    /** Stops the timer; the loop has exited when the first such call returns. */
    method Stop()
      requires Valid()
      modifies this`stopped, this`model
      ensures Valid() && stopped
      ensures model == if old(stopped) then old(model) else Apply(Apply(old(model), Action.Stop), Halt)
      ensures !old(stopped) ==> model.halted
    {
      var first := MarkStopped();
      if first {
        AwaitExit();
      }
    }

    /** The reported total counts exactly the timeouts that were placed and neither launched nor discarded. */
    method GetStats() returns (totalTimeouts: nat)
      requires Valid()
      ensures totalTimeouts == |PlacedIds(model.nodes)| - |launched| - |model.dropped|
      ensures totalTimeouts == |Flatten(wheel[..])|
    {
      totalTimeouts := 0;
      for b := 0 to wheelSize
        invariant totalTimeouts == |Flatten(model.buckets[..b])| == |Flatten(wheel[..b])|
      {
        totalTimeouts := totalTimeouts + |wheel[b]|;
        assert model.buckets[..b + 1][..b] == model.buckets[..b] && wheel[..b + 1][..b] == wheel[..b];
      }
      assert model.buckets[..wheelSize] == model.buckets && wheel[..wheelSize] == wheel[..];
      ReachableInv(model);
      WaitingCount(model);
      assert |Ids(launched)| == |model.fired|;
    }
  }
}
