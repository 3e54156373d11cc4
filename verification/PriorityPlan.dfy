/**
 The collection plan of a job: the metrics that are due, grouped by priority, the groups in order.  A group
 holds positions in the job's list of metrics, as the code holds pointers into it.
 */
module PriorityPlan {
  import opened Collections

  datatype Metric = Metric(collectTime: int, interval: int, priority: int, fields: seq<string>, aliasFields: seq<string>)

  type Metrics = seq<Metric>

  // ---------------------------------------------------------------- what the plan is meant to be

  predicate Due(m: Metric, now: int) {
    now >= m.collectTime + m.interval * 1000
  }

  function WithAlias(m: Metric): Metric {
    if m.aliasFields == [] && m.fields != [] then m.(aliasFields := m.fields) else m
  }

  predicate AnyDue(ms: Metrics, now: int) {
    exists k :: 0 <= k < |ms| && Due(ms[k], now)
  }

  /** The first metric of priority 0, or the length of the list. */
  function FirstZero(ms: Metrics): nat {
    if ms == [] || ms[0].priority == 0 then 0 else 1 + FirstZero(ms[1..])
  }

  /** Due metrics are chosen; when nothing is due, the first metric of priority 0 stands in. */
  predicate Chosen(ms: Metrics, now: int, k: nat)
    requires k < |ms|
  {
    if AnyDue(ms, now) then Due(ms[k], now) else k == FirstZero(ms)
  }

  function Selected(ms: Metrics, now: int, upTo: nat): seq<nat>
    requires upTo <= |ms|
  {
    if upTo == 0 then [] else
      Selected(ms, now, upTo - 1) + if Chosen(ms, now, upTo - 1) then [upTo - 1] else []
  }

  predicate Within(ms: Metrics, ks: seq<nat>) {
    forall i :: 0 <= i < |ks| ==> ks[i] < |ms|
  }

  /** Insertion behind all entries of the same or a smaller priority. */
  function Insert(ms: Metrics, sorted: seq<nat>, k: nat): (r: seq<nat>)
    requires Within(ms, sorted) && k < |ms|
    ensures Within(ms, r) && forall x: nat :: x in r <==> x in sorted || x == k
  {
    if sorted == [] then [k] else
      var last := sorted[|sorted| - 1];
      assert sorted == sorted[..|sorted| - 1] + [last];
      if ms[last].priority <= ms[k].priority then sorted + [k]
      else Insert(ms, sorted[..|sorted| - 1], k) + [last]
  }

  /** The textbook stable sort by priority. */
  function StableSort(ms: Metrics, ks: seq<nat>): (r: seq<nat>)
    requires Within(ms, ks)
    ensures Within(ms, r) && forall x: nat :: x in r <==> x in ks
  {
    if ks == [] then [] else
      assert ks == ks[..|ks| - 1] + [ks[|ks| - 1]];
      Insert(ms, StableSort(ms, ks[..|ks| - 1]), ks[|ks| - 1])
  }

  /** By priority, and by position among equals. */
  predicate Before(ms: Metrics, a: nat, b: nat)
    requires a < |ms| && b < |ms|
  {
    ms[a].priority < ms[b].priority || (ms[a].priority == ms[b].priority && a < b)
  }

  predicate Ordered(ms: Metrics, ks: seq<nat>) {
    Within(ms, ks) && forall i, j :: 0 <= i < j < |ks| ==> Before(ms, ks[i], ks[j])
  }

  predicate Increasing(ks: seq<nat>) {
    forall i, j :: 0 <= i < j < |ks| ==> ks[i] < ks[j]
  }

  lemma {:induction false} SelectedIs(ms: Metrics, now: int, upTo: nat)
    requires upTo <= |ms|
    ensures Increasing(Selected(ms, now, upTo))
    ensures forall k: nat :: k in Selected(ms, now, upTo) <==> k < upTo && Chosen(ms, now, k)
  {
    if upTo > 0 {
      SelectedIs(ms, now, upTo - 1);
      var front, all := Selected(ms, now, upTo - 1), Selected(ms, now, upTo);
      forall i, j | 0 <= i < j < |all| ensures all[i] < all[j] {
        assert all[i] in front;
      }
    }
  }

  lemma OrderedNext(ms: Metrics, r: seq<nat>, front: seq<nat>, k: nat, last: nat)
    requires Ordered(ms, r) && last < |ms| && Ordered(ms, front + [last]) && k < |ms| && ms[k].priority < ms[last].priority
    requires forall x: nat :: x in r ==> x in front || x == k
    ensures Ordered(ms, r + [last])
  {
    forall i | 0 <= i < |r| ensures Before(ms, r[i], last) {
      assert r[i] in r;
      if r[i] != k {
        var j :| 0 <= j < |front| && front[j] == r[i];
        assert Before(ms, (front + [last])[j], (front + [last])[|front|]);
      }
    }
  }

  lemma {:induction false} InsertOrdered(ms: Metrics, sorted: seq<nat>, k: nat)
    requires Ordered(ms, sorted) && k < |ms| && forall x: nat :: x in sorted ==> x < k
    ensures Ordered(ms, Insert(ms, sorted, k))
  {
    if sorted != [] {
      var front, last := sorted[..|sorted| - 1], sorted[|sorted| - 1];
      assert sorted == front + [last] && last in sorted;
      if ms[last].priority > ms[k].priority {
        forall x | x in front ensures x < k {
          assert x in sorted;
        }
        InsertOrdered(ms, front, k);
        OrderedNext(ms, Insert(ms, front, k), front, k, last);
      } else {
        OrderedLast(ms, sorted, k);
      }
    }
  }

  lemma OrderedLast(ms: Metrics, sorted: seq<nat>, k: nat)
    requires Ordered(ms, sorted) && k < |ms| && (forall x: nat :: x in sorted ==> x < k)
    requires sorted != [] && ms[sorted[|sorted| - 1]].priority <= ms[k].priority
    ensures Ordered(ms, sorted + [k])
  {
    forall i | 0 <= i < |sorted| ensures Before(ms, sorted[i], k) {
      assert sorted[i] in sorted;
      assert i < |sorted| - 1 ==> Before(ms, sorted[i], sorted[|sorted| - 1]);
    }
  }

  lemma {:induction false} StableSortOrdered(ms: Metrics, ks: seq<nat>)
    requires Within(ms, ks) && Increasing(ks)
    ensures Ordered(ms, StableSort(ms, ks))
  {
    if ks != [] {
      StableSortOrdered(ms, ks[..|ks| - 1]);
      InsertOrdered(ms, StableSort(ms, ks[..|ks| - 1]), ks[|ks| - 1]);
    }
  }

  lemma LastIsGreatest(ms: Metrics, ks: seq<nat>, x: nat)
    requires Ordered(ms, ks) && x in ks
    ensures ks != [] && (x == ks[|ks| - 1] || Before(ms, x, ks[|ks| - 1]))
    ensures x in ks[..|ks| - 1] <==> x != ks[|ks| - 1]
  {
    var i :| 0 <= i < |ks| && ks[i] == x;
    var n := |ks| - 1;
    forall j | 0 <= j < n ensures ks[j] != ks[n] {
      assert Before(ms, ks[j], ks[n]);
    }
    if i < n {
      assert Before(ms, ks[i], ks[n]) && ks[..n][i] == x;
    }
  }

  lemma SameFront(ms: Metrics, a: seq<nat>, b: seq<nat>, z: nat)
    requires Ordered(ms, a) && Ordered(ms, b) && a != [] && b != [] && a[|a| - 1] == b[|b| - 1] && (z in a <==> z in b)
    ensures z in a[..|a| - 1] <==> z in b[..|b| - 1]
  {
    if z in a {
      LastIsGreatest(ms, a, z);
      LastIsGreatest(ms, b, z);
    }
  }

  /** An ordered list is determined by its members. */
  lemma {:induction false} OrderedUnique(ms: Metrics, a: seq<nat>, b: seq<nat>)
    requires Ordered(ms, a) && Ordered(ms, b) && forall x: nat :: x in a <==> x in b
    ensures a == b
  {
    assert a == [] || a[0] in a;
    assert b == [] || b[0] in b;
    if a != [] {
      SameLast(ms, a, b);
      var a', b', x := a[..|a| - 1], b[..|b| - 1], a[|a| - 1];
      forall z: nat ensures z in a' <==> z in b' {
        SameFront(ms, a, b, z);
      }
      OrderedUnique(ms, a', b');
      assert a == a' + [x] && b == b' + [x];
    }
  }

  lemma SameLast(ms: Metrics, a: seq<nat>, b: seq<nat>)
    requires Ordered(ms, a) && Ordered(ms, b) && a != [] && b != [] && forall x: nat :: x in a <==> x in b
    ensures a[|a| - 1] == b[|b| - 1]
  {
    assert a[|a| - 1] in a && b[|b| - 1] in b;
    LastIsGreatest(ms, a, b[|b| - 1]);
    LastIsGreatest(ms, b, a[|a| - 1]);
  }

  // ---------------------------------------------------------------- groups

  /** A group is not empty, has one priority, and keeps the order of the list. */
  predicate IsGroup(ms: Metrics, g: seq<nat>, priority: int) {
    && g != [] && Within(ms, g) && Increasing(g)
    && forall i :: 0 <= i < |g| ==> ms[g[i]].priority == priority
  }

  function Priority(ms: Metrics, g: seq<nat>): int
    requires g != [] && Within(ms, g)
  {
    ms[g[0]].priority
  }

  predicate AreGroups(ms: Metrics, groups: seq<seq<nat>>) {
    forall i :: 0 <= i < |groups| ==> groups[i] != [] && Within(ms, groups[i])
                                      && IsGroup(ms, groups[i], Priority(ms, groups[i]))
  }

  /** The groups come in strictly increasing priority. */
  predicate Ascending(ms: Metrics, groups: seq<seq<nat>>)
    requires AreGroups(ms, groups)
  {
    forall i, j :: 0 <= i < j < |groups| ==> Priority(ms, groups[i]) < Priority(ms, groups[j])
  }

  lemma {:induction false} FlattenOrdered(ms: Metrics, groups: seq<seq<nat>>)
    requires AreGroups(ms, groups) && Ascending(ms, groups)
    ensures Ordered(ms, Flatten(groups))
  {
    if groups != [] {
      var front, last := groups[..|groups| - 1], groups[|groups| - 1];
      FlattenOrdered(ms, front);
      var r := Flatten(front);
      forall i, j | 0 <= i < |r| && 0 <= j < |last| ensures Before(ms, r[i], last[j]) {
        FlattenMember(front, r[i]);
        var b :| 0 <= b < |front| && r[i] in front[b];
        assert Priority(ms, groups[b]) < Priority(ms, last);
      }
    }
  }

  /** Groups that hold exactly the chosen metrics, in ascending priority, are the stable sort cut into pieces. */
  lemma PlanIsStableSort(ms: Metrics, now: int, groups: seq<seq<nat>>)
    requires AreGroups(ms, groups) && Ascending(ms, groups)
    requires forall k: nat :: k in Flatten(groups) <==> k < |ms| && Chosen(ms, now, k)
    ensures Within(ms, Selected(ms, now, |ms|))
    ensures Flatten(groups) == StableSort(ms, Selected(ms, now, |ms|))
  {
    var chosen := Selected(ms, now, |ms|);
    SelectedIs(ms, now, |ms|);
    assert Within(ms, chosen) by {
      forall i | 0 <= i < |chosen| ensures chosen[i] < |ms| {
        assert chosen[i] in chosen;
      }
    }
    FlattenOrdered(ms, groups);
    StableSortOrdered(ms, chosen);
    OrderedUnique(ms, Flatten(groups), StableSort(ms, chosen));
  }

  // ---------------------------------------------------------------- the code

  /** The metrics after planning: chosen ones carry the new time, and due ones get default alias fields. */
  function Updated(ms: Metrics, now: int): Metrics {
    seq(|ms|, k requires 0 <= k < |ms| =>
      if !Chosen(ms, now, k) then ms[k]
      else (if AnyDue(ms, now) then WithAlias(ms[k]) else ms[k]).(collectTime := now))
  }

  /** The map holds exactly the given positions, each in the group of its priority. */
  ghost predicate Grouped(ms: Metrics, groups: map<int, seq<nat>>, members: set<nat>) {
    && (forall p :: p in groups ==> IsGroup(ms, groups[p], p))
    && (forall p, k :: p in groups && k in groups[p] ==> k in members)
    && (forall k :: k in members ==> k < |ms| && ms[k].priority in groups && k in groups[ms[k].priority])
  }

  lemma GroupExtends(ms: Metrics, groups: map<int, seq<nat>>, members: set<nat>, k: nat)
    requires Grouped(ms, groups, members) && k < |ms| && forall x :: x in members ==> x < k
    ensures var p := ms[k].priority;
      Grouped(ms, groups[p := (if p in groups then groups[p] else []) + [k]], members + {k})
  {
    var p := ms[k].priority;
    var g := if p in groups then groups[p] else [];
    if p in groups {
      GroupGrows(ms, groups[p], p, k, members);
    } else {
      assert [] + [k] == [k];
    }
    GroupStored(ms, groups, members, p, g, k);
  }

  lemma GroupStored(ms: Metrics, groups: map<int, seq<nat>>, members: set<nat>, p: int, g: seq<nat>, k: nat)
    requires Grouped(ms, groups, members) && IsGroup(ms, g + [k], p) && k < |ms| && ms[k].priority == p
    requires g == if p in groups then groups[p] else []
    ensures Grouped(ms, groups[p := g + [k]], members + {k})
  {
    var groups' := groups[p := g + [k]];
    forall q, x | q in groups' && x in groups'[q] ensures x in members + {k} {
      if q != p {
        assert x in groups[q];
      }
    }
    forall x | x in members + {k} ensures x < |ms| && ms[x].priority in groups' && x in groups'[ms[x].priority] {
      if x != k {
        assert x in groups[ms[x].priority];
      }
    }
  }

  lemma GroupGrows(ms: Metrics, g: seq<nat>, p: int, k: nat, members: set<nat>)
    requires IsGroup(ms, g, p) && k < |ms| && ms[k].priority == p
    requires (forall x :: x in g ==> x in members) && forall x :: x in members ==> x < k
    ensures IsGroup(ms, g + [k], p)
  {
    forall i | 0 <= i < |g| ensures g[i] < k {
      assert g[i] in g;
    }
  }

  /** The groups taken from the map so far, each once. */
  ghost predicate Listed(ms: Metrics, groups: map<int, seq<nat>>, left: set<int>, list: seq<seq<nat>>) {
    && AreGroups(ms, list) && Distinct(ms, list)
    && (forall i :: 0 <= i < |list| ==>
          var p := Priority(ms, list[i]); p in groups && p !in left && groups[p] == list[i])
    && (forall p :: p in groups && p !in left ==> groups[p] in list)
  }

  predicate Distinct(ms: Metrics, list: seq<seq<nat>>)
    requires AreGroups(ms, list)
  {
    forall i, j :: 0 <= i < j < |list| ==> Priority(ms, list[i]) != Priority(ms, list[j])
  }

  lemma ListExtends(ms: Metrics, groups: map<int, seq<nat>>, left: set<int>, list: seq<seq<nat>>, p: int)
    requires (forall q :: q in groups ==> IsGroup(ms, groups[q], q))
    requires Listed(ms, groups, left, list) && p in left && p in groups
    ensures Listed(ms, groups, left - {p}, list + [groups[p]])
  {
    var all := list + [groups[p]];
    assert Priority(ms, groups[p]) == p;
    forall q | q in groups && q !in left - {p} ensures groups[q] in all {
      if q == p {
        assert all[|list|] == groups[p];
      } else {
        assert groups[q] in list;
      }
    }
  }

  lemma PlanCovers(ms: Metrics, groups: map<int, seq<nat>>, members: set<nat>, list: seq<seq<nat>>, plan: seq<seq<nat>>)
    requires Grouped(ms, groups, members) && Listed(ms, groups, {}, list) && forall g :: g in plan <==> g in list
    ensures forall k: nat :: k in Flatten(plan) <==> k in members
  {
    forall k: nat ensures k in Flatten(plan) <==> k in members {
      FlattenMember(plan, k);
      if k in members {
        var g := groups[ms[k].priority];
        assert g in list && g in plan;
        var b :| 0 <= b < |plan| && plan[b] == g;
      }
      if b :| 0 <= b < |plan| && k in plan[b] {
        assert plan[b] in plan && plan[b] in list;
      }
    }
  }

  /** Puts a group in its place among ascending ones. */
  method InsertGroup(ms: Metrics, sorted: seq<seq<nat>>, g: seq<nat>) returns (r: seq<seq<nat>>)
    requires AreGroups(ms, sorted) && Ascending(ms, sorted) && AreGroups(ms, [g])
    requires forall i :: 0 <= i < |sorted| ==> Priority(ms, sorted[i]) != Priority(ms, [g][0])
    ensures AreGroups(ms, r) && Ascending(ms, r) && forall x :: x in r <==> x in sorted || x == g
  {
    assert g == [g][0];
    var at: nat := |sorted|;
    while at > 0 && Priority(ms, g) < Priority(ms, sorted[at - 1])
      invariant 0 <= at <= |sorted|
      invariant forall i :: at <= i < |sorted| ==> Priority(ms, g) < Priority(ms, sorted[i])
    {
      at := at - 1;
    }
    Splice(ms, sorted, at, g);
    r := sorted[..at] + [g] + sorted[at..];
  }

  lemma Splice(ms: Metrics, sorted: seq<seq<nat>>, at: nat, g: seq<nat>)
    requires at <= |sorted| && AreGroups(ms, sorted) && Ascending(ms, sorted) && AreGroups(ms, [g])
    requires forall i :: 0 <= i < |sorted| ==> Priority(ms, sorted[i]) != Priority(ms, [g][0])
    requires at > 0 ==> Priority(ms, sorted[at - 1]) <= Priority(ms, [g][0])
    requires forall i :: at <= i < |sorted| ==> Priority(ms, [g][0]) < Priority(ms, sorted[i])
    ensures var r := sorted[..at] + [g] + sorted[at..];
      AreGroups(ms, r) && Ascending(ms, r) && forall x :: x in r <==> x in sorted || x == g
  {
    var a, b := sorted[..at], sorted[at..];
    forall i | 0 <= i < at ensures Priority(ms, a[i]) < Priority(ms, [g][0]) {
      assert i < at - 1 ==> Priority(ms, sorted[i]) < Priority(ms, sorted[at - 1]);
    }
    SpliceAscending(ms, a, g, b);
    SpliceMembers(sorted, at, g);
  }

  lemma SpliceMembers(sorted: seq<seq<nat>>, at: nat, g: seq<nat>)
    requires at <= |sorted|
    ensures forall x :: x in sorted[..at] + [g] + sorted[at..] <==> x in sorted || x == g
  {
    assert sorted == sorted[..at] + sorted[at..];
  }

  lemma SpliceAscending(ms: Metrics, a: seq<seq<nat>>, g: seq<nat>, b: seq<seq<nat>>)
    requires AreGroups(ms, a) && AreGroups(ms, b) && AreGroups(ms, [g]) && Ascending(ms, a) && Ascending(ms, b)
    requires forall i :: 0 <= i < |a| ==> Priority(ms, a[i]) < Priority(ms, [g][0])
    requires forall i :: 0 <= i < |b| ==> Priority(ms, [g][0]) < Priority(ms, b[i])
    ensures AreGroups(ms, a + [g] + b) && Ascending(ms, a + [g] + b)
  {
    assert g == [g][0];
    var r := a + [g] + b;
    forall i | 0 <= i < |r| ensures r[i] != [] && Within(ms, r[i]) && IsGroup(ms, r[i], Priority(ms, r[i])) {
      assert r[i] == if i < |a| then a[i] else if i == |a| then g else b[i - |a| - 1];
    }
  }

  /** Sorts the groups by the priority of their first metric. */
  method SortGroups(ms: Metrics, list: seq<seq<nat>>) returns (sorted: seq<seq<nat>>)
    requires AreGroups(ms, list) && Distinct(ms, list)
    ensures AreGroups(ms, sorted) && Ascending(ms, sorted) && forall g :: g in sorted <==> g in list
  {
    sorted := [];
    for i := 0 to |list|
      invariant AreGroups(ms, sorted) && Ascending(ms, sorted) && forall g :: g in sorted <==> g in list[..i]
    {
      forall j | 0 <= j < |sorted| ensures Priority(ms, sorted[j]) != Priority(ms, list[i]) {
        assert sorted[j] in list[..i];
      }
      sorted := InsertGroup(ms, sorted, list[i]);
      assert list[..i + 1] == list[..i] + [list[i]];
    }
    assert list[..|list|] == list;
  }

  /** Takes the groups out of the map in the map's arbitrary order, and sorts them. */
  method PlanOf(ms: Metrics, groups: map<int, seq<nat>>, ghost members: set<nat>) returns (plan: seq<seq<nat>>)
    requires Grouped(ms, groups, members)
    ensures AreGroups(ms, plan) && Ascending(ms, plan) && forall k: nat :: k in Flatten(plan) <==> k in members
  {
    var list: seq<seq<nat>> := [];
    var left := groups.Keys;
    while left != {}
      invariant left <= groups.Keys && Listed(ms, groups, left, list)
    {
      var p := Choose(left);
      ListExtends(ms, groups, left, list, p);
      list, left := list + [groups[p]], left - {p};
    }
    plan := SortGroups(ms, list);
    PlanCovers(ms, groups, members, list, plan);
  }

  lemma {:induction false} FirstZeroIs(ms: Metrics, k: nat)
    requires k <= |ms| && (forall i :: 0 <= i < k ==> ms[i].priority != 0) && (k < |ms| ==> ms[k].priority == 0)
    ensures FirstZero(ms) == k
  {
    if k > 0 {
      FirstZeroIs(ms[1..], k - 1);
    }
  }

  class Job {
    var metrics: Metrics
    var prior: seq<seq<nat>>

    /** Marks the due metrics and groups them by priority. */
    method GroupDue(now: int) returns (groups: map<int, seq<nat>>, ghost members: set<nat>)
      modifies this`metrics
      ensures |metrics| == |old(metrics)| && Grouped(old(metrics), groups, members)
      ensures forall k: nat :: k in members <==>
        k < |metrics| && now >= old(metrics)[k].collectTime + old(metrics)[k].interval * 1000
      ensures forall k :: 0 <= k < |metrics| ==>
        var m := old(metrics)[k];
        metrics[k] == if now < m.collectTime + m.interval * 1000 then m
                      else m.(collectTime := now, aliasFields := if m.aliasFields == [] then m.fields else m.aliasFields)
    {
      ghost var ms := metrics;
      groups, members := map[], {};
      for i := 0 to |metrics|
        invariant |metrics| == |ms| && Grouped(ms, groups, members)
        invariant forall k: nat :: k in members <==> k < i && Due(ms[k], now)
        invariant forall k :: 0 <= k < i ==>
          metrics[k] == if Due(ms[k], now) then WithAlias(ms[k]).(collectTime := now) else ms[k]
        invariant forall k :: i <= k < |metrics| ==> metrics[k] == ms[k]
      {
        var m := metrics[i];
        if Due(m, now) {
          var aliasFields := if m.aliasFields == [] && m.fields != [] then m.fields else m.aliasFields;
          metrics := metrics[i := m.(collectTime := now, aliasFields := aliasFields)];
          GroupExtends(ms, groups, members, i);
          groups := groups[m.priority := (if m.priority in groups then groups[m.priority] else []) + [i]];
          members := members + {i};
        }
      }
    }

    /** When nothing is due, the first metric of priority 0 is planned; without one, nothing is. */
    method FallBack(now: int) returns (groups: map<int, seq<nat>>, ghost members: set<nat>)
      modifies this`metrics
      ensures var k := FirstZero(old(metrics));
        && Grouped(old(metrics), groups, members)
        && (k < |old(metrics)| ==> members == {k} && metrics == old(metrics)[k := old(metrics)[k].(collectTime := now)])
        && (k >= |old(metrics)| ==> members == {} && metrics == old(metrics))
      ensures forall k: nat :: k in members <==> k < |old(metrics)| && old(metrics)[k].priority == 0
                                                 && forall j :: 0 <= j < k ==> old(metrics)[j].priority != 0
    {
      groups, members := map[], {};
      var i := 0;
      while i < |metrics| && metrics[i].priority != 0
        invariant 0 <= i <= |metrics| && forall k :: 0 <= k < i ==> metrics[k].priority != 0
      {
        i := i + 1;
      }
      FirstZeroIs(metrics, i);
      if i < |metrics| {
        GroupExtends(metrics, groups, members, i);
        metrics := metrics[i := metrics[i].(collectTime := now)];
        groups, members := map[0 := [i]], {i};
      }
    }

    /** The due metrics, or the one that stands in for them. */
    method GroupChosen(now: int) returns (groups: map<int, seq<nat>>, ghost members: set<nat>)
      modifies this`metrics
      ensures metrics == Updated(old(metrics), now) && Grouped(old(metrics), groups, members)
      ensures forall k: nat :: k in members <==> k < |old(metrics)| && Chosen(old(metrics), now, k)
    {
      ghost var ms := metrics;
      groups, members := GroupDue(now);
      EmptyMap(ms, groups, members);
      DueUpdated(ms, now, members, metrics);
      if |groups| == 0 {
        groups, members := FallBack(now);
        StandInUpdated(ms, now, members, metrics);
      }
    }

    /** Plans the next collection. */
    method ConstructPriorMetrics(now: int)
      modifies this
      ensures metrics == Updated(old(metrics), now)
      ensures AreGroups(old(metrics), prior) && Ascending(old(metrics), prior)
      ensures Within(old(metrics), Selected(old(metrics), now, |old(metrics)|))
      ensures Flatten(prior) == StableSort(old(metrics), Selected(old(metrics), now, |old(metrics)|))
      ensures CollectsDue(old(metrics), now, Flatten(prior)) && FallsBack(old(metrics), now, Flatten(prior))
      ensures Marks(old(metrics), now, Flatten(prior), metrics) && InGroups(old(metrics), prior)
    {
      var ms := metrics;  // sorting reads priorities only, and those do not change
      var groups, members := GroupChosen(now);
      prior := PlanOf(ms, groups, members);
      PlanIsStableSort(ms, now, prior);
      PlanMeans(ms, now, prior);
    }
  }

  // ---------------------------------------------------------------- the plan in arithmetic

  /** If any interval has passed, those metrics and no others are planned. */
  ghost predicate CollectsDue(ms: Metrics, now: int, plan: seq<nat>) {
    && (forall k :: k in plan ==> k < |ms|)
    && (forall k: nat :: k < |ms| && now >= ms[k].collectTime + ms[k].interval * 1000 ==> k in plan)
    && (forall j: nat, k: nat :: j < |ms| && now >= ms[j].collectTime + ms[j].interval * 1000 && k in plan ==>
          now >= ms[k].collectTime + ms[k].interval * 1000)
  }

  /** If none has, the first metric of priority 0 is planned. */
  ghost predicate FallsBack(ms: Metrics, now: int, plan: seq<nat>) {
    (forall j :: 0 <= j < |ms| ==> now < ms[j].collectTime + ms[j].interval * 1000) ==>
      forall k: nat :: k in plan <==> k < |ms| && ms[k].priority == 0 && forall j :: 0 <= j < k ==> ms[j].priority != 0
  }

  /** Planned metrics carry the new time; those whose interval has passed get alias fields if they have none. */
  ghost predicate Marks(ms: Metrics, now: int, plan: seq<nat>, ms': Metrics) {
    && |ms'| == |ms|
    && forall k :: 0 <= k < |ms| ==>
         var due := now >= ms[k].collectTime + ms[k].interval * 1000;
         ms'[k] == ms[k].(
           collectTime := if k in plan then now else ms[k].collectTime,
           aliasFields := if due && ms[k].aliasFields == [] then ms[k].fields else ms[k].aliasFields)
  }

  /** The groups ascend strictly in priority; within a group the priority is one, and the list order is kept. */
  ghost predicate InGroups(ms: Metrics, plan: seq<seq<nat>>) {
    && (forall i, a :: 0 <= i < |plan| && 0 <= a < |plan[i]| ==> plan[i][a] < |ms|)
    && (forall i :: 0 <= i < |plan| ==> plan[i] != [])
    && (forall i, a, b :: 0 <= i < |plan| && 0 <= a < b < |plan[i]| ==>
          plan[i][a] < plan[i][b] && ms[plan[i][a]].priority == ms[plan[i][b]].priority)
    && (forall i, j :: 0 <= i < j < |plan| ==> ms[plan[i][0]].priority < ms[plan[j][0]].priority)
  }

  lemma PlanMeans(ms: Metrics, now: int, groups: seq<seq<nat>>)
    requires AreGroups(ms, groups) && Ascending(ms, groups)
    requires forall k: nat :: k in Flatten(groups) <==> k < |ms| && Chosen(ms, now, k)
    ensures CollectsDue(ms, now, Flatten(groups)) && FallsBack(ms, now, Flatten(groups))
    ensures Marks(ms, now, Flatten(groups), Updated(ms, now)) && InGroups(ms, groups)
  {
    DueMeans(ms, now, Flatten(groups));
    NothingDueMeans(ms, now, Flatten(groups));
    MarksMean(ms, now, Flatten(groups));
    GroupsMean(ms, groups);
  }

  lemma DueMeans(ms: Metrics, now: int, plan: seq<nat>)
    requires forall k: nat :: k in plan <==> k < |ms| && Chosen(ms, now, k)
    ensures CollectsDue(ms, now, plan)
  {
    forall j: nat | j < |ms| && now >= ms[j].collectTime + ms[j].interval * 1000 ensures AnyDue(ms, now) {
      assert Due(ms[j], now);
    }
  }

  lemma NothingDueMeans(ms: Metrics, now: int, plan: seq<nat>)
    requires forall k: nat :: k in plan <==> k < |ms| && Chosen(ms, now, k)
    ensures FallsBack(ms, now, plan)
  {
    FirstZeroFound(ms);
  }

  lemma MarksMean(ms: Metrics, now: int, plan: seq<nat>)
    requires forall k: nat :: k in plan <==> k < |ms| && Chosen(ms, now, k)
    ensures Marks(ms, now, plan, Updated(ms, now))
  {
    forall k: nat | k < |ms| && Due(ms[k], now) ensures AnyDue(ms, now) {
    }
  }

  lemma GroupsMean(ms: Metrics, groups: seq<seq<nat>>)
    requires AreGroups(ms, groups) && Ascending(ms, groups)
    ensures InGroups(ms, groups)
  {
    forall i | 0 <= i < |groups| ensures groups[i] != [] && Within(ms, groups[i]) {
    }
    forall i, j | 0 <= i < j < |groups| ensures ms[groups[i][0]].priority < ms[groups[j][0]].priority {
      assert Priority(ms, groups[i]) < Priority(ms, groups[j]);
    }
  }

  /** What the first loop did, in terms of the choice. */
  lemma DueUpdated(ms: Metrics, now: int, members: set<nat>, ms': Metrics)
    requires |ms'| == |ms| && forall k: nat :: k in members <==> k < |ms| && now >= ms[k].collectTime + ms[k].interval * 1000
    requires forall k :: 0 <= k < |ms| ==>
      var m := ms[k];
      ms'[k] == if now < m.collectTime + m.interval * 1000 then m
                else m.(collectTime := now, aliasFields := if m.aliasFields == [] then m.fields else m.aliasFields)
    ensures AnyDue(ms, now) <==> members != {}
    ensures members == {} ==> ms' == ms
    ensures members != {} ==> ms' == Updated(ms, now) && forall k: nat :: k in members <==> k < |ms| && Chosen(ms, now, k)
  {
    forall k: nat | k < |ms| && Due(ms[k], now) ensures k in members {
    }
    forall k | k in members ensures AnyDue(ms, now) {
      assert Due(ms[k], now);
    }
    if members == {} {
      assert forall k: nat :: k < |ms| ==> k !in members;
    } else {
      var some :| some in members;
      assert AnyDue(ms, now);
    }
  }

  /** What the second loop did. */
  lemma StandInUpdated(ms: Metrics, now: int, members: set<nat>, ms': Metrics)
    requires !AnyDue(ms, now)
    requires var k := FirstZero(ms);
      && (k < |ms| ==> members == {k} && ms' == ms[k := ms[k].(collectTime := now)])
      && (k >= |ms| ==> members == {} && ms' == ms)
    ensures ms' == Updated(ms, now) && forall k: nat :: k in members <==> k < |ms| && Chosen(ms, now, k)
  {
  }

  lemma {:induction false} FirstZeroFound(ms: Metrics)
    ensures FirstZero(ms) <= |ms| && (FirstZero(ms) < |ms| ==> ms[FirstZero(ms)].priority == 0)
    ensures forall j :: 0 <= j < FirstZero(ms) ==> ms[j].priority != 0
  {
    if ms != [] && ms[0].priority != 0 {
      FirstZeroFound(ms[1..]);
      forall j | 0 < j < FirstZero(ms) ensures ms[j].priority != 0 {
        assert ms[j] == ms[1..][j - 1];
      }
    }
  }

  lemma EmptyMap(ms: Metrics, groups: map<int, seq<nat>>, members: set<nat>)
    requires Grouped(ms, groups, members)
    ensures |groups| == 0 <==> members == {}
  {
    forall p | p in groups ensures groups[p][0] in members {
      assert groups[p][0] in groups[p];
    }
    if members == {} {
      assert groups.Keys == {};
    }
  }

  // ---------------------------------------------------------------- many calls

  /** The metrics after planning at each of the given times. */
  function After(ms: Metrics, nows: seq<int>): (r: Metrics)
    ensures |r| == |ms|
  {
    if nows == [] then ms else Updated(After(ms, nows[..|nows| - 1]), nows[|nows| - 1])
  }

  predicate NonDecreasing(nows: seq<int>) {
    forall i, j :: 0 <= i <= j < |nows| ==> nows[i] <= nows[j]
  }

  predicate ChosenAt(ms: Metrics, nows: seq<int>, c: nat, k: nat)
    requires c < |nows| && k < |ms|
  {
    Chosen(After(ms, nows[..c]), nows[c], k)
  }

  predicate DueAt(ms: Metrics, nows: seq<int>, c: nat, k: nat)
    requires c < |nows| && k < |ms|
  {
    Due(After(ms, nows[..c])[k], nows[c])
  }

  lemma {:induction false} CollectTimeKept(ms: Metrics, nows: seq<int>, i: nat, c: nat, k: nat)
    requires NonDecreasing(nows) && i < c <= |nows| && k < |ms| && ChosenAt(ms, nows, i, k)
    ensures After(ms, nows[..c])[k].collectTime >= nows[i]
    decreases c
  {
    assert nows[..c][..c - 1] == nows[..c - 1];
    if c > i + 1 {
      CollectTimeKept(ms, nows, i, c - 1, k);
    }
  }

  lemma {:induction false} IntervalKept(ms: Metrics, nows: seq<int>, k: nat)
    requires k < |ms|
    ensures After(ms, nows)[k].interval == ms[k].interval
  {
    if nows != [] {
      IntervalKept(ms, nows[..|nows| - 1], k);
    }
  }

  /** No call in that range chooses the metric. */
  ghost predicate NotChosenIn(ms: Metrics, nows: seq<int>, first: int, end: int, k: nat)
    requires 0 <= first <= end <= |nows| && k < |ms|
  {
    forall j: nat :: first <= j < end ==> !ChosenAt(ms, nows, j, k)
  }

  lemma {:induction false} TimeStays(ms: Metrics, nows: seq<int>, first: nat, end: nat, k: nat)
    requires first <= end <= |nows| && k < |ms| && NotChosenIn(ms, nows, first, end, k)
    ensures After(ms, nows[..end])[k].collectTime == After(ms, nows[..first])[k].collectTime
    decreases end
  {
    if first != end {
      TimeStays(ms, nows, first, end - 1, k);
      assert nows[..end][..end - 1] == nows[..end - 1];
      assert !ChosenAt(ms, nows, end - 1, k);
    }
  }

  /** After a selection the metric is chosen again by the first call that comes its interval later, if not
      before as a stand-in; the due test does not choose it earlier. */
  lemma NextSelection(ms: Metrics, nows: seq<int>, i: nat, c: nat, k: nat)
    requires i < c < |nows| && k < |ms| && ChosenAt(ms, nows, i, k) && NotChosenIn(ms, nows, i + 1, c, k)
    ensures DueAt(ms, nows, c, k) <==> nows[c] >= nows[i] + ms[k].interval * 1000
    ensures nows[c] >= nows[i] + ms[k].interval * 1000 ==> ChosenAt(ms, nows, c, k)
  {
    TimeStays(ms, nows, i + 1, c, k);
    assert nows[..i + 1][..i] == nows[..i];
    IntervalKept(ms, nows[..c], k);
    if nows[c] >= nows[i] + ms[k].interval * 1000 {
      DueIsChosen(ms, nows, c, k);
    }
  }

  /** The first selection of a metric, from the time it carried at the start. */
  lemma FirstSelection(ms: Metrics, nows: seq<int>, c: nat, k: nat)
    requires c < |nows| && k < |ms| && NotChosenIn(ms, nows, 0, c, k)
    ensures DueAt(ms, nows, c, k) <==> nows[c] >= ms[k].collectTime + ms[k].interval * 1000
    ensures nows[c] >= ms[k].collectTime + ms[k].interval * 1000 ==> ChosenAt(ms, nows, c, k)
  {
    TimeStays(ms, nows, 0, c, k);
    IntervalKept(ms, nows[..c], k);
    if nows[c] >= ms[k].collectTime + ms[k].interval * 1000 {
      DueIsChosen(ms, nows, c, k);
    }
  }

  /** A metric that the due test chooses was last chosen, in whatever way, at least its interval before. */
  lemma SelectionsSpaced(ms: Metrics, nows: seq<int>, i: nat, c: nat, k: nat)
    requires NonDecreasing(nows) && i < c < |nows| && k < |ms|
    requires ChosenAt(ms, nows, i, k) && DueAt(ms, nows, c, k)
    ensures nows[c] >= nows[i] + ms[k].interval * 1000
  {
    CollectTimeKept(ms, nows, i, c, k);
    IntervalKept(ms, nows[..c], k);
  }

  lemma DueIsChosen(ms: Metrics, nows: seq<int>, c: nat, k: nat)
    requires c < |nows| && k < |ms| && DueAt(ms, nows, c, k)
    ensures ChosenAt(ms, nows, c, k)
  {
    assert AnyDue(After(ms, nows[..c]), nows[c]);
  }

  function Times(n: nat, x: int): int {
    if n == 0 then 0 else Times(n - 1, x) + x
  }

  lemma {:induction false} TimesIsProduct(n: nat, x: int)
    ensures Times(n, x) == n * x
  {
    if n > 0 {
      TimesIsProduct(n - 1, x);
    }
  }

  lemma {:induction false} SelectionsAddUp(ms: Metrics, nows: seq<int>, calls: seq<nat>, k: nat)
    requires NonDecreasing(nows) && Increasing(calls) && calls != [] && k < |ms|
    requires forall i :: 0 <= i < |calls| ==> calls[i] < |nows| && DueAt(ms, nows, calls[i], k)
    ensures nows[calls[|calls| - 1]] >= nows[calls[0]] + Times(|calls| - 1, ms[k].interval * 1000)
  {
    if |calls| > 1 {
      var front, last := calls[..|calls| - 1], calls[|calls| - 1];
      SelectionsAddUp(ms, nows, front, k);
      var before := calls[|calls| - 2];
      DueIsChosen(ms, nows, before, k);
      SelectionsSpaced(ms, nows, before, last, k);
    }
  }

  /** So n + 1 selections of a metric by the due test span at least n of its intervals. */
  lemma SelectionsSpread(ms: Metrics, nows: seq<int>, calls: seq<nat>, k: nat)
    requires NonDecreasing(nows) && Increasing(calls) && calls != [] && k < |ms|
    requires forall i :: 0 <= i < |calls| ==> calls[i] < |nows| && DueAt(ms, nows, calls[i], k)
    ensures nows[calls[|calls| - 1]] >= nows[calls[0]] + (|calls| - 1) * (ms[k].interval * 1000)
  {
    SelectionsAddUp(ms, nows, calls, k);
    TimesIsProduct(|calls| - 1, ms[k].interval * 1000);
  }
}
