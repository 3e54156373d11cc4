/**
 The hashed timing wheel as a transition system.

 A timeout is created by loading the tick counter and is put into its bucket later; a tick first
 advances the counter and only then scans one bucket.  Each of these is a step of its own, so a run
 is any interleaving of them with cancellations and with the two halves of Stop.
 */
module Wheel {
  import opened Collections
  import opened Arithmetic

  /** One timeout.  `placed` records the last scanned tick at the moment it entered its bucket. */
  datatype Node = Node(target: int, cancelled: bool, placed: Option<int>)

  /** The launch of a timeout's task by the scan of `tick`. */
  datatype Firing = Firing(id: nat, tick: int)

  /** A timeout is named by its position in `nodes`.  `fired` and `dropped` are the history of the scans. */
  datatype Wheel = Wheel(
    size: nat,
    tick: int,
    scanned: int,
    stopped: bool,
    halted: bool,
    nodes: seq<Node>,
    buckets: seq<seq<nat>>,
    fired: seq<Firing>,
    dropped: seq<nat>)

  datatype Action =
    | Load(delayTicks: int)
    | Insert(id: nat)
    | Advance
    | Scan
    | Cancel(id: nat)
    | Stop
    | Halt

  function Initial(size: nat): Wheel {
    Wheel(size, 0, 0, false, false, [], seq(size, _ => []), [], [])
  }

  /** The bucket index is a remainder that must not be negative, or the bucket lookup panics. */
  predicate HasBucket(size: nat, target: int)
    requires size > 0
  {
    target >= 0 || target % size == 0
  }

  predicate Enabled(w: Wheel, a: Action) {
    match a
    case Load(delayTicks) => !w.stopped && w.size > 0 && HasBucket(w.size, w.tick + delayTicks)
    case Insert(id) => id < |w.nodes| && w.nodes[id].placed.None? && |w.buckets| == w.size > 0
    case Advance => w.tick == w.scanned && !w.halted
    case Scan => w.tick == w.scanned + 1 && |w.buckets| == w.size > 0
    case Cancel(id) => id < |w.nodes|
    case Stop => true
    case Halt => w.stopped && w.tick == w.scanned
  }

  /** What the scan of one tick does with a timeout it meets. */
  datatype Verdict = Drop | Fire | Keep

  function Judge(node: Node, tick: int): Verdict {
    if node.cancelled then Drop else if tick >= node.target then Fire else Keep
  }

  /** The members of a bucket that receive the given verdict, in bucket order. */
  function Sift(nodes: seq<Node>, ids: seq<nat>, tick: int, verdict: Verdict): seq<nat> {
    if ids == [] then [] else
      var last := ids[|ids| - 1];
      Sift(nodes, ids[..|ids| - 1], tick, verdict)
      + (if last < |nodes| && Judge(nodes[last], tick) == verdict then [last] else [])
  }

  function Stamp(ids: seq<nat>, tick: int): seq<Firing> {
    seq(|ids|, i requires 0 <= i < |ids| => Firing(ids[i], tick))
  }

  function Apply(w: Wheel, a: Action): Wheel {
    if !Enabled(w, a) then w else
      match a
      case Load(delayTicks) => w.(nodes := w.nodes + [Node(w.tick + delayTicks, false, None)])
      case Insert(id) =>
        var b := w.nodes[id].target % w.size;
        w.(nodes := w.nodes[id := w.nodes[id].(placed := Some(w.scanned))],
           buckets := w.buckets[b := w.buckets[b] + [id]])
      case Advance => w.(tick := w.tick + 1)
      case Scan =>
        var b := w.tick % w.size;
        w.(scanned := w.tick,
           buckets := w.buckets[b := Sift(w.nodes, w.buckets[b], w.tick, Keep)],
           fired := w.fired + Stamp(Sift(w.nodes, w.buckets[b], w.tick, Fire), w.tick),
           dropped := w.dropped + Sift(w.nodes, w.buckets[b], w.tick, Drop))
      case Cancel(id) => w.(nodes := w.nodes[id := w.nodes[id].(cancelled := true)])
      case Stop => w.(stopped := true)
      case Halt => w.(halted := true)
  }

  /** All the given timeouts cancelled, as stopping the dispatcher does. */
  function Cancelled(nodes: seq<Node>, ids: set<nat>): seq<Node> {
    seq(|nodes|, i requires 0 <= i < |nodes| => if i in ids then nodes[i].(cancelled := true) else nodes[i])
  }

  function Run(w: Wheel, actions: seq<Action>): Wheel {
    if actions == [] then w else Apply(Run(w, actions[..|actions| - 1]), actions[|actions| - 1])
  }

  // ---------------------------------------------------------------- the tick at which a timeout is due

  /** The target, moved on by whole turns of the wheel until it lies after the scan that preceded placement. */
  function DueTick(size: nat, target: int, placedAt: int): int
    requires size > 0
    decreases placedAt - target
  {
    if target > placedAt then target else DueTick(size, target + size, placedAt)
  }

  /** A scan of tick n meets the timeout after it was placed and finds its target reached. */
  predicate MeetsDue(size: nat, target: int, placedAt: int, n: int)
    requires size > 0
  {
    n > placedAt && n >= target && (n - target) % size == 0
  }

  /** The due tick is the first scan after placement that reaches the target in its own bucket. */
  lemma {:induction false} DueTickIsFirst(size: nat, target: int, placedAt: int)
    requires size > 0
    ensures MeetsDue(size, target, placedAt, DueTick(size, target, placedAt))
    ensures forall n :: MeetsDue(size, target, placedAt, n) ==> DueTick(size, target, placedAt) <= n
    ensures placedAt < target <==> DueTick(size, target, placedAt) == target
    decreases placedAt - target
  {
    if target > placedAt {
      ModuloUnique(size, 0, 0, 0);
    } else {
      DueTickIsFirst(size, target + size, placedAt);
      var due := DueTick(size, target, placedAt);
      TurnKeepsResidue(size, due - target - size);
      forall n | MeetsDue(size, target, placedAt, n)
        ensures due <= n
      {
        TurnKeepsResidue(size, n - target);
        if n < target + size {
          ModuloUnique(size, n - target, 0, n - target);
        }
        assert MeetsDue(size, target + size, placedAt, n);
      }
    }
  }

  function Due(w: Wheel, id: nat): int
    requires w.size > 0 && id < |w.nodes| && w.nodes[id].placed.Some?
  {
    DueTick(w.size, w.nodes[id].target, w.nodes[id].placed.value)
  }

  // ---------------------------------------------------------------- the invariant

  function PlacedIds(nodes: seq<Node>): set<nat> {
    set id: nat | id < |nodes| && nodes[id].placed.Some?
  }

  function FiredIds(fired: seq<Firing>): seq<nat> {
    seq(|fired|, i requires 0 <= i < |fired| => fired[i].id)
  }

  /** The timeouts in the buckets, the launched ones, and the ones discarded after a cancellation. */
  ghost function Waiting(w: Wheel): multiset<nat> {
    multiset(Flatten(w.buckets))
  }

  ghost function Launched(w: Wheel): multiset<nat> {
    multiset(FiredIds(w.fired))
  }

  ghost function Discarded(w: Wheel): multiset<nat> {
    multiset(w.dropped)
  }

  ghost predicate Waits(w: Wheel, b: int, id: nat)
    requires w.size > 0
  {
    && id < |w.nodes|
    && w.nodes[id].placed.Some?
    && w.nodes[id].target % w.size == b
    && w.scanned < Due(w, id)
  }

  ghost predicate FiredOnDue(w: Wheel, f: Firing)
    requires w.size > 0
  {
    f.id < |w.nodes| && w.nodes[f.id].placed.Some? && f.tick == Due(w, f.id) <= w.scanned
  }

  ghost predicate Dropped(w: Wheel, id: nat) {
    id < |w.nodes| && w.nodes[id].cancelled
  }

  /** Every timeout that ever entered a bucket is still there, was fired, or was dropped: exactly once. */
  ghost predicate Conserved(w: Wheel) {
    Waiting(w) + Launched(w) + Discarded(w) == multiset(PlacedIds(w.nodes))
  }

  ghost predicate Inv(w: Wheel) {
    && w.size > 0 && |w.buckets| == w.size
    && 0 <= w.scanned <= w.tick <= w.scanned + 1
    && (forall id :: 0 <= id < |w.nodes| && w.nodes[id].placed.Some? ==> w.nodes[id].placed.value <= w.scanned)
    && (forall b, k :: 0 <= b < w.size && 0 <= k < |w.buckets[b]| ==> Waits(w, b, w.buckets[b][k]))
    && (forall k :: 0 <= k < |w.fired| ==> FiredOnDue(w, w.fired[k]))
    && (forall k :: 0 <= k < |w.dropped| ==> Dropped(w, w.dropped[k]))
    && Conserved(w)
  }

  lemma {:induction false} SiftMember(nodes: seq<Node>, ids: seq<nat>, tick: int, verdict: Verdict, id: nat)
    ensures id in Sift(nodes, ids, tick, verdict)
      <==> id in ids && id < |nodes| && Judge(nodes[id], tick) == verdict
  {
    if ids != [] {
      var last := |ids| - 1;
      SiftMember(nodes, ids[..last], tick, verdict, id);
      assert ids == ids[..last] + [ids[last]];
    }
  }

  lemma {:induction false} SiftPartitions(nodes: seq<Node>, ids: seq<nat>, tick: int)
    requires forall k :: 0 <= k < |ids| ==> ids[k] < |nodes|
    ensures multiset(ids) == multiset(Sift(nodes, ids, tick, Keep)) + multiset(Sift(nodes, ids, tick, Fire))
                             + multiset(Sift(nodes, ids, tick, Drop))
  {
    if ids != [] {
      var front, x := ids[..|ids| - 1], ids[|ids| - 1];
      SiftPartitions(nodes, front, tick);
      assert ids == front + [x];
      SiftNext(nodes, front, x, tick, Keep);
      SiftNext(nodes, front, x, tick, Fire);
      SiftNext(nodes, front, x, tick, Drop);
      PartOfNext(front, Sift(nodes, front, tick, Keep), Sift(nodes, front, tick, Fire), Sift(nodes, front, tick, Drop), x);
      match Judge(nodes[x], tick) {
        case Keep =>
        case Fire =>
        case Drop =>
      }
    }
  }

  lemma SiftNext(nodes: seq<Node>, ids: seq<nat>, x: nat, tick: int, verdict: Verdict)
    requires x < |nodes|
    ensures Sift(nodes, ids + [x], tick, verdict)
         == Sift(nodes, ids, tick, verdict) + if Judge(nodes[x], tick) == verdict then [x] else []
  {
    assert (ids + [x])[..|ids|] == ids;
  }

  lemma PartOfNext(ids: seq<nat>, keep: seq<nat>, fire: seq<nat>, drop: seq<nat>, x: nat)
    requires multiset(ids) == multiset(keep) + multiset(fire) + multiset(drop)
    ensures multiset(ids + [x]) == multiset(keep + [x]) + multiset(fire + []) + multiset(drop + [])
    ensures multiset(ids + [x]) == multiset(keep + []) + multiset(fire + [x]) + multiset(drop + [])
    ensures multiset(ids + [x]) == multiset(keep + []) + multiset(fire + []) + multiset(drop + [x])
  {
    assert keep + [] == keep && fire + [] == fire && drop + [] == drop;
  }

  lemma InitialInv(size: nat)
    requires size > 0
    ensures Inv(Initial(size))
  {
    FlattenEmpty(Initial(size).buckets);
  }

  lemma PlacedIdsGrow(nodes: seq<Node>, id: nat, scanned: int)
    requires id < |nodes| && nodes[id].placed.None?
    ensures multiset(PlacedIds(nodes[id := nodes[id].(placed := Some(scanned))]))
         == multiset(PlacedIds(nodes)) + multiset{id}
  {
    assert PlacedIds(nodes[id := nodes[id].(placed := Some(scanned))]) == PlacedIds(nodes) + {id};
  }

  lemma InsertConserves(w: Wheel, id: nat)
    requires Inv(w) && Enabled(w, Insert(id))
    ensures Conserved(Apply(w, Insert(id)))
  {
    var w' := Apply(w, Insert(id));
    var b := w.nodes[id].target % w.size;
    var before, after := Waiting(w), Waiting(w');
    FlattenUpdate(w.buckets, b, w.buckets[b] + [id]);
    assert after + multiset(w.buckets[b]) == (before + multiset{id}) + multiset(w.buckets[b]);
    CancelPart(after, before + multiset{id}, multiset(w.buckets[b]));
    PlacedIdsGrow(w.nodes, id, w.scanned);
  }

  lemma InsertKeepsInv(w: Wheel, id: nat)
    requires Inv(w) && Enabled(w, Insert(id))
    ensures Inv(Apply(w, Insert(id)))
  {
    var w' := Apply(w, Insert(id));
    var b := w.nodes[id].target % w.size;
    DueTickIsFirst(w.size, w.nodes[id].target, w.scanned);
    InsertConserves(w, id);
    forall c, k | 0 <= c < w.size && 0 <= k < |w'.buckets[c]|
      ensures Waits(w', c, w'.buckets[c][k])
    {
      if c != b || k < |w.buckets[b]| {
        assert Waits(w, c, w.buckets[c][k]);
      }
    }
    forall k | 0 <= k < |w.fired| ensures FiredOnDue(w', w'.fired[k]) {
      assert FiredOnDue(w, w.fired[k]);
    }
    forall k | 0 <= k < |w.dropped| ensures Dropped(w', w'.dropped[k]) {
      assert Dropped(w, w.dropped[k]);
    }
  }

  /** A waiting timeout is due at the tick being scanned exactly when it is in that tick's bucket and its target is reached. */
  lemma DueNow(w: Wheel, b: int, id: nat)
    requires w.size > 0 && Waits(w, b, id) && w.nodes[id].placed.value <= w.scanned
    ensures Due(w, id) == w.scanned + 1 <==> b == (w.scanned + 1) % w.size && w.nodes[id].target <= w.scanned + 1
  {
    var node, n := w.nodes[id], w.scanned + 1;
    DueTickIsFirst(w.size, node.target, node.placed.value);
    assert MeetsDue(w.size, node.target, node.placed.value, Due(w, id));
    SameResidue(w.size, n, node.target);
    if b == n % w.size && node.target <= n {
      assert MeetsDue(w.size, node.target, node.placed.value, n);
    }
  }

  lemma ScanKeepsWaiting(w: Wheel, c: int, k: int)
    requires Inv(w) && Enabled(w, Scan)
    requires 0 <= c < w.size && 0 <= k < |Apply(w, Scan).buckets[c]|
    ensures Waits(Apply(w, Scan), c, Apply(w, Scan).buckets[c][k])
  {
    var w' := Apply(w, Scan);
    var id := w'.buckets[c][k];
    var t := w.tick % w.size;
    if c == t {
      SiftMember(w.nodes, w.buckets[t], w.tick, Keep, id);
    }
    assert id in w.buckets[c];
    assert Waits(w, c, id);
    DueNow(w, c, id);
  }

  lemma ScanFiresOnDue(w: Wheel, k: int)
    requires Inv(w) && Enabled(w, Scan)
    requires 0 <= k < |Apply(w, Scan).fired|
    ensures FiredOnDue(Apply(w, Scan), Apply(w, Scan).fired[k])
  {
    var f := Apply(w, Scan).fired[k];
    if k < |w.fired| {
      assert FiredOnDue(w, w.fired[k]);
    } else {
      var t := w.tick % w.size;
      SiftMember(w.nodes, w.buckets[t], w.tick, Fire, f.id);
      assert Waits(w, t, f.id);
      DueNow(w, t, f.id);
    }
  }

  lemma FiredIdsAppend(fired: seq<Firing>, ids: seq<nat>, tick: int)
    ensures FiredIds(fired + Stamp(ids, tick)) == FiredIds(fired) + ids
  {
  }

  lemma MoveOut(before: multiset<nat>, after: multiset<nat>, keep: multiset<nat>, fire: multiset<nat>,
                drop: multiset<nat>, fired: multiset<nat>, dropped: multiset<nat>)
    requires after + (keep + fire + drop) == before + keep
    ensures after + (fired + fire) + (dropped + drop) == before + fired + dropped
  {
    assert (after + fire + drop) + keep == before + keep;
    CancelPart(after + fire + drop, before, keep);
  }

  lemma ScanConserves(w: Wheel)
    requires Inv(w) && Enabled(w, Scan)
    ensures Conserved(Apply(w, Scan))
  {
    var b := w.tick % w.size;
    forall k | 0 <= k < |w.buckets[b]| ensures w.buckets[b][k] < |w.nodes| {
      assert Waits(w, b, w.buckets[b][k]);
    }
    var keep := Sift(w.nodes, w.buckets[b], w.tick, Keep);
    var fire := Sift(w.nodes, w.buckets[b], w.tick, Fire);
    var drop := Sift(w.nodes, w.buckets[b], w.tick, Drop);
    SiftPartitions(w.nodes, w.buckets[b], w.tick);
    FlattenUpdate(w.buckets, b, keep);
    FiredIdsAppend(w.fired, fire, w.tick);
    MoveOut(Waiting(w), Waiting(Apply(w, Scan)), multiset(keep), multiset(fire), multiset(drop),
            Launched(w), Discarded(w));
  }

  lemma ScanKeepsInv(w: Wheel)
    requires Inv(w) && Enabled(w, Scan)
    ensures Inv(Apply(w, Scan))
  {
    var w' := Apply(w, Scan);
    forall c, k | 0 <= c < w.size && 0 <= k < |w'.buckets[c]| ensures Waits(w', c, w'.buckets[c][k]) {
      ScanKeepsWaiting(w, c, k);
    }
    forall k | 0 <= k < |w'.fired| ensures FiredOnDue(w', w'.fired[k]) {
      ScanFiresOnDue(w, k);
    }
    forall k | 0 <= k < |w'.dropped| ensures Dropped(w', w'.dropped[k]) {
      if k < |w.dropped| {
        assert Dropped(w, w.dropped[k]);
      } else {
        SiftMember(w.nodes, w.buckets[w.tick % w.size], w.tick, Drop, w'.dropped[k]);
      }
    }
    ScanConserves(w);
  }

  /** The remaining steps touch no bucket and no history. */
  lemma QuietStepKeepsInv(w: Wheel, a: Action)
    requires Inv(w) && !a.Insert? && !a.Scan?
    ensures Inv(Apply(w, a))
  {
    var w' := Apply(w, a);
    forall c, k | 0 <= c < w.size && 0 <= k < |w'.buckets[c]| ensures Waits(w', c, w'.buckets[c][k]) {
      assert Waits(w, c, w.buckets[c][k]);
    }
    forall k | 0 <= k < |w.fired| ensures FiredOnDue(w', w'.fired[k]) {
      assert FiredOnDue(w, w.fired[k]);
    }
    forall k | 0 <= k < |w.dropped| ensures Dropped(w', w'.dropped[k]) {
      assert Dropped(w, w.dropped[k]);
    }
    assert PlacedIds(w'.nodes) == PlacedIds(w.nodes);
  }

  lemma StepKeepsInv(w: Wheel, a: Action)
    requires Inv(w)
    ensures Inv(Apply(w, a))
  {
    if a.Insert? && Enabled(w, a) {
      InsertKeepsInv(w, a.id);
    } else if a.Scan? && Enabled(w, a) {
      ScanKeepsInv(w);
    } else if !a.Insert? && !a.Scan? {
      QuietStepKeepsInv(w, a);
    }
  }

  lemma {:induction false} RunKeepsInv(w: Wheel, actions: seq<Action>)
    requires Inv(w)
    ensures Inv(Run(w, actions))
  {
    if actions != [] {
      RunKeepsInv(w, actions[..|actions| - 1]);
      StepKeepsInv(Run(w, actions[..|actions| - 1]), actions[|actions| - 1]);
    }
  }
}
