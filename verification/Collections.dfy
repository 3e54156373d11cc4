/** Small facts about sequences, sets and multisets shared by the other modules. */
module Collections {

  datatype Option<+T> = None | Some(value: T)

  /** Concatenation of a list of lists, in order. */
  function Flatten<T>(lists: seq<seq<T>>): seq<T> {
    if lists == [] then [] else Flatten(lists[..|lists| - 1]) + lists[|lists| - 1]
  }

  lemma SwapPart<T>(a: multiset<T>, x: multiset<T>, b: multiset<T>, y: multiset<T>, rest: multiset<T>)
    requires a + x == b + y
    ensures (a + rest) + x == (b + rest) + y
  {
    assert (a + rest) + x == (a + x) + rest;
    assert (b + rest) + y == (b + y) + rest;
  }

  lemma CancelPart<T>(a: multiset<T>, b: multiset<T>, part: multiset<T>)
    requires a + part == b + part
    ensures a == b
  {
    forall x ensures a[x] == b[x] {
      assert (a + part)[x] == (b + part)[x];
    }
  }

  /** Changing one list changes the multiset of the concatenation by exactly that list. */
  lemma {:induction false} FlattenUpdate<T>(lists: seq<seq<T>>, b: nat, list: seq<T>)
    requires b < |lists|
    ensures multiset(Flatten(lists[b := list])) + multiset(lists[b]) == multiset(Flatten(lists)) + multiset(list)
  {
    var last := |lists| - 1;
    var updated := lists[b := list];
    assert Flatten(updated) == Flatten(updated[..last]) + updated[last];
    assert Flatten(lists) == Flatten(lists[..last]) + lists[last];
    if b < last {
      FlattenUpdate(lists[..last], b, list);
      assert updated[..last] == lists[..last][b := list];
      SwapPart(multiset(Flatten(updated[..last])), multiset(lists[b]), multiset(Flatten(lists[..last])),
               multiset(list), multiset(lists[last]));
    } else {
      assert updated[..last] == lists[..last];
    }
  }

  lemma {:induction false} FlattenMember<T>(lists: seq<seq<T>>, x: T)
    ensures x in Flatten(lists) <==> exists b :: 0 <= b < |lists| && x in lists[b]
  {
    if lists != [] {
      var last := |lists| - 1;
      FlattenMember(lists[..last], x);
      assert lists == lists[..last] + [lists[last]];
      if x in Flatten(lists) && x !in lists[last] {
        var b :| 0 <= b < last && x in lists[..last][b];
        assert x in lists[b];
      }
      if b :| 0 <= b < |lists| && x in lists[b] {
        assert b < last ==> x in lists[..last][b];
      }
    }
  }

  lemma {:induction false} FlattenEmpty<T>(lists: seq<seq<T>>)
    requires forall b :: 0 <= b < |lists| ==> lists[b] == []
    ensures Flatten(lists) == []
  {
    if lists != [] {
      FlattenEmpty(lists[..|lists| - 1]);
    }
  }

  /** A set that maps injectively into another is no larger. */
  lemma {:induction false} InjectionBound<A, B>(source: set<A>, target: set<B>, image: map<A, B>)
    requires image.Keys == source
    requires forall a :: a in source ==> image[a] in target
    requires forall a, a' :: a in source && a' in source && image[a] == image[a'] ==> a == a'
    ensures |source| <= |target|
  {
    if source != {} {
      var a :| a in source;
      var rest := source - {a};
      InjectionBound(rest, target - {image[a]}, map x | x in rest :: image[x]);
    }
  }

  function ValuesOf(m: map<int, nat>): set<nat> {
    set k | k in m :: m[k]
  }

  /** An arbitrary member, as iterating over a map yields one. */
  method Choose<T>(s: set<T>) returns (x: T)
    requires s != {}
    ensures x in s
  {
    x :| x in s;
  }

  /** The first n naturals. */
  ghost function Below(n: nat): (r: set<nat>)
    ensures |r| == n
    ensures forall k: nat :: k in r <==> k < n
  {
    if n == 0 then {} else Below(n - 1) + {n - 1}
  }

  /** The sum of the values of a map. */
  ghost function Sum(m: map<int, nat>): nat
    decreases |m|
  {
    if exists k :: k in m then
      var k :| k in m;
      m[k] + Sum(m - {k})
    else 0
  }

  lemma {:induction false} SumSplit(m: map<int, nat>, k: int)
    requires k in m
    ensures Sum(m) == m[k] + Sum(m - {k})
    decreases |m|
  {
    var first :| first in m && Sum(m) == m[first] + Sum(m - {first});
    if first != k {
      SumSplit(m - {first}, k);
      SumSplit(m - {k}, first);
      assert m - {first} - {k} == m - {k} - {first};
    }
  }

  lemma SumUpdate(m: map<int, nat>, k: int, v: nat)
    ensures Sum(m[k := v]) == v + Sum(m - {k})
    ensures Sum(m - {k}) <= Sum(m)
  {
    SumSplit(m[k := v], k);
    assert m[k := v] - {k} == m - {k};
    if k in m {
      SumSplit(m, k);
    } else {
      assert m - {k} == m;
    }
  }

  /** A loop over a list that carries a state along and emits one result per element. */
  function Scan<S, A, B>(f: (S, A) -> (B, S), s: S, xs: seq<A>): (seq<B>, S) {
    if xs == [] then ([], s) else
      var (out, now) := Scan(f, s, xs[..|xs| - 1]);
      var (b, next) := f(now, xs[|xs| - 1]);
      (out + [b], next)
  }

  lemma ScanNext<S, A, B>(f: (S, A) -> (B, S), s: S, xs: seq<A>, x: A)
    ensures var (out, now) := Scan(f, s, xs); var (b, next) := f(now, x);
      Scan(f, s, xs + [x]) == (out + [b], next)
  {
    assert (xs + [x])[..|xs|] == xs;
  }

  lemma {:induction false} ScanInTwo<S, A, B>(f: (S, A) -> (B, S), s: S, xs: seq<A>, ys: seq<A>)
    ensures var (out, now) := Scan(f, s, xs); var (more, end) := Scan(f, now, ys);
      Scan(f, s, xs + ys) == (out + more, end)
  {
    var (out, now) := Scan(f, s, xs);
    if ys == [] {
      assert xs + ys == xs && out + [] == out;
    } else {
      var front, last := ys[..|ys| - 1], ys[|ys| - 1];
      ScanInTwo(f, s, xs, front);
      ScanNext(f, s, xs + front, last);
      ScanNext(f, now, front, last);
      assert xs + ys == xs + front + [last] && ys == front + [last];
      var (more, end) := Scan(f, now, front);
      assert out + (more + [f(end, last).0]) == out + more + [f(end, last).0];
    }
  }
}
