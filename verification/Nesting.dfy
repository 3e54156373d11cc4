/**
 Parameter values that hold placeholders themselves.  A pass replaces one parameter after another and does
 not look again at what it has inserted for a parameter, so each pass resolves at least one level of
 nesting and, depending on the order, more.
 */
module Nesting {
  import opened Substitution
  import opened Rewriting

  function Names(t: Template): set<string> {
    match t
    case Hole(_, name, rest) => {name} + Names(rest)
    case _ => {}
  }

  predicate Closed(t: Template) {
    match t
    case Last(_) => true
    case Open(_, _) => false
    case Hole(_, _, rest) => Closed(rest)
  }

  /** What a parameter stands for: a template all of whose markers are paired. */
  type Value = t: Template | Closed(t) witness Last("")
  type Values = map<string, Value>

  /** The placeholder itself. */
  function Self(name: string): Value {
    assert Closed(Last(""));
    Hole("", name, Last(""))
  }

  function Concat(a: Value, b: Template): (r: Template)
    ensures Closed(b) ==> Closed(r)
  {
    match a
    case Last(lit) => Prepend(lit, b)
    case Hole(lit, name, rest) => Hole(lit, name, Concat(rest, b))
  }

  function At(name: string, vals: Values): Value {
    if name in vals then vals[name] else Self(name)
  }

  /** Every placeholder whose name has a value gives way to it, all at once; what comes in is not looked at again. */
  function Fill(t: Template, vals: Values): (r: Template)
    ensures Closed(t) ==> Closed(r)
  {
    match t
    case Hole(lit, name, rest) => Prepend(lit, Concat(At(name, vals), Fill(rest, vals)))
    case _ => t
  }

  // ---------------------------------------------------------------- algebra

  lemma PrependNothing(t: Template)
    ensures Prepend("", t) == t
  {
    assert "" + t.lit == t.lit;
  }

  lemma {:induction false} ConcatNothing(a: Value)
    ensures Concat(a, Last("")) == a
  {
    match a
    case Last(lit) => assert lit + "" == lit;
    case Hole(lit, name, rest) => ConcatNothing(rest);
  }

  lemma PrependConcat(text: string, a: Value, b: Template)
    ensures Closed(Prepend(text, a)) && Concat(Prepend(text, a), b) == Prepend(text, Concat(a, b))
  {
    if a.Last? {
      PrependTwice(text, a.lit, b);
    }
  }

  lemma {:induction false} ConcatAssociative(a: Value, b: Value, c: Template)
    ensures Concat(Concat(a, b), c) == Concat(a, Concat(b, c))
  {
    match a
    case Last(lit) => PrependConcat(lit, b, c);
    case Hole(lit, name, rest) => ConcatAssociative(rest, b, c);
  }

  lemma FillPrepend(text: string, t: Template, vals: Values)
    ensures Fill(Prepend(text, t), vals) == Prepend(text, Fill(t, vals))
  {
    if t.Hole? {
      PrependTwice(text, t.lit, Concat(At(t.name, vals), Fill(t.rest, vals)));
    }
  }

  lemma {:induction false} FillConcat(a: Value, b: Template, vals: Values)
    ensures Fill(Concat(a, b), vals) == Concat(Fill(a, vals), Fill(b, vals))
  {
    match a
    case Last(lit) => FillPrepend(lit, b, vals);
    case Hole(lit, name, rest) =>
      FillConcat(rest, b, vals);
      var v, r, s := At(name, vals), Fill(rest, vals), Fill(b, vals);
      ConcatAssociative(v, r, s);
      PrependConcat(lit, Concat(v, r), s);
  }

  lemma FillSelf(name: string, vals: Values)
    ensures Fill(Self(name), vals) == At(name, vals)
  {
    ConcatNothing(At(name, vals));
    PrependNothing(At(name, vals));
  }

  lemma SelfStays(lit: string, name: string, rest: Template)
    ensures Prepend(lit, Concat(Self(name), rest)) == Hole(lit, name, rest)
  {
    PrependNothing(rest);
    assert lit + "" == lit;
  }

  lemma {:induction false} FillNothing(t: Template, vals: Values)
    requires Names(t) !! vals.Keys
    ensures Fill(t, vals) == t
  {
    if t.Hole? {
      FillNothing(t.rest, vals);
      SelfStays(t.lit, t.name, t.rest);
    }
  }

  /** Only the values of the names that occur matter. */
  lemma {:induction false} FillSame(t: Template, a: Values, b: Values)
    requires forall n :: n in Names(t) ==> At(n, a) == At(n, b)
    ensures Fill(t, a) == Fill(t, b)
  {
    if t.Hole? {
      FillSame(t.rest, a, b);
    }
  }

  /** Filling twice is filling once with what the second filling makes of the first values. */
  lemma {:induction false} FillTwice(t: Template, a: Values, b: Values, c: Values)
    requires forall n :: n in Names(t) ==> Fill(At(n, a), b) == At(n, c)
    ensures Fill(Fill(t, a), b) == Fill(t, c)
  {
    if t.Hole? {
      FillTwice(t.rest, a, b, c);
      var v, r := At(t.name, a), Fill(t.rest, a);
      FillPrepend(t.lit, Concat(v, r), b);
      FillConcat(v, r, b);
    }
  }

  lemma {:induction false} NamesConcat(a: Value, b: Template)
    ensures Names(Concat(a, b)) == Names(a) + Names(b)
  {
    if a.Hole? {
      NamesConcat(a.rest, b);
    }
  }

  lemma {:induction false} NamesFill(t: Template, vals: Values, j: string)
    ensures j in Names(Fill(t, vals)) <==> exists n :: n in Names(t) && j in Names(At(n, vals))
  {
    if t.Hole? {
      NamesFill(t.rest, vals, j);
      NamesConcat(At(t.name, vals), Fill(t.rest, vals));
    }
  }

  lemma NamesFillOne(t: Template, key: string, v: Value)
    ensures Names(Fill(t, map[key := v])) == Names(t) - {key} + if key in Names(t) then Names(v) else {}
  {
    var vals := map[key := v];
    forall j ensures j in Names(Fill(t, vals)) <==> j in Names(t) - {key} + if key in Names(t) then Names(v) else {} {
      NamesFill(t, vals, j);
      assert j in Names(t) && j != key ==> j in Names(At(j, vals));
      assert key in Names(t) && j in Names(v) ==> j in Names(At(key, vals));
    }
  }

  // ---------------------------------------------------------------- a pass over the text

  predicate Tidy(t: Template, keys: set<string>) {
    Plain(t) && Guarded(t, keys)
  }

  /** The templates are the values of those parameters, and a value that is just its own placeholder is left out. */
  ghost predicate Valued(vals: Values, params: Params, keys: set<string>) {
    && params.Keys <= keys && (forall k :: k in params ==> NoCaret(k)) && vals.Keys <= params.Keys - {""}
    && forall k :: k in vals ==> params[k] == Render(vals[k]) && Tidy(vals[k], keys) && vals[k] != Self(k)
  }

  /** Every parameter that the template names has its value read, or stands for its own placeholder. */
  ghost predicate Covers(t: Template, vals: Values, params: Params) {
    forall n :: n in Names(t) && n in params && n != "" && n !in vals ==> params[n] == Placeholder(n)
  }

  ghost predicate CoversAll(of: Values, vals: Values, params: Params) {
    forall k :: k in of ==> Covers(of[k], vals, params)
  }

  lemma {:induction false} RenderConcat(a: Value, b: Template)
    ensures Render(Concat(a, b)) == Render(a) + Render(b)
  {
    match a
    case Last(lit) => RenderPrepend(lit, b);
    case Hole(lit, name, rest) =>
      RenderConcat(rest, b);
      assert lit + Placeholder(name) + (Render(rest) + Render(b)) == lit + Placeholder(name) + Render(rest) + Render(b);
  }

  lemma {:induction false} FillOneText(t: Template, key: string, v: Value)
    ensures Render(SubstituteSome(t, {key}, map[key := Render(v)])) == Render(Fill(t, map[key := v]))
  {
    if t.Hole? {
      var params, vals := map[key := Render(v)], map[key := v];
      FillOneText(t.rest, key, v);
      var r, s := SubstituteSome(t.rest, {key}, params), Fill(t.rest, vals);
      if t.name == key {
        RenderPrepend(t.lit + Render(v), r);
        RenderConcat(v, s);
        RenderPrepend(t.lit, Concat(v, s));
        assert t.lit + Render(v) + Render(r) == t.lit + (Render(v) + Render(s));
      } else {
        SelfStays(t.lit, t.name, s);
      }
    }
  }

  /** Replacing a parameter in the text is filling it in. */
  lemma ReplaceIsFill(t: Template, key: string, v: Value, keys: set<string>)
    requires Tidy(t, keys) && key in keys && key != "" && NoCaret(key)
    ensures ReplaceAll(Render(t), Placeholder(key), Render(v)) == Render(Fill(t, map[key := v]))
  {
    var params := map[key := Render(v)];
    GuardedIsClear(t, params, keys);
    ReplaceIsSubstitute(t, key, params);
    FillOneText(t, key, v);
  }

  lemma {:induction false} ConcatTidy(a: Value, b: Template, keys: set<string>)
    requires Tidy(a, keys) && Tidy(b, keys) && (!b.Last? ==> Guards(b.lit, keys))
    ensures Tidy(Concat(a, b), keys)
    ensures !a.Last? ==> Concat(a, b).lit == a.lit
    ensures a.Last? && !b.Last? ==> Guards(Concat(a, b).lit, keys)
    ensures !Concat(a, b).Last? ==> !a.Last? || !b.Last?
  {
    match a
    case Last(lit) =>
      if !b.Last? {
        GuardsWider(lit, b.lit, "", keys);
        assert lit + b.lit + "" == lit + b.lit;
      }
    case Hole(lit, name, rest) =>
      ConcatTidy(rest, b, keys);
  }

  lemma {:induction false} FillTidy(t: Template, vals: Values, keys: set<string>)
    requires Tidy(t, keys) && forall k :: k in vals ==> Tidy(vals[k], keys)
    ensures Tidy(Fill(t, vals), keys)
    ensures Guards(t.lit, keys) ==> Guards(Fill(t, vals).lit, keys)
    ensures t.Last? ==> Fill(t, vals).Last?
  {
    if t.Hole? {
      FillTidy(t.rest, vals, keys);
      var v, r := At(t.name, vals), Fill(t.rest, vals);
      ConcatTidy(v, r, keys);
      var c := Concat(v, r);
      if Guards(t.lit, keys) {
        GuardsWider("", t.lit, c.lit, keys);
        assert "" + t.lit + c.lit == t.lit + c.lit;
      }
    }
  }

  lemma {:induction false} ReplaceByItself(text: string, what: string)
    requires what != ""
    ensures ReplaceAll(text, what, what) == text
  {
    if text != "" {
      if what <= text {
        ReplaceByItself(text[|what|..], what);
      } else {
        ReplaceByItself(text[1..], what);
      }
    }
  }

  /** The parameters filled in one after another. */
  function Graft(t: Template, order: seq<string>, vals: Values): Template {
    if order == [] then t else
      var last := order[|order| - 1];
      var done := Graft(t, order[..|order| - 1], vals);
      if last in vals then Fill(done, map[last := vals[last]]) else done
  }

  lemma CoversFill(t: Template, key: string, vals: Values, over: Values, params: Params)
    requires Covers(t, over, params) && key in vals && Covers(vals[key], over, params)
    ensures Covers(Fill(t, map[key := vals[key]]), over, params)
  {
    NamesFillOne(t, key, vals[key]);
  }

  /** The loop over the parameters fills them in one after another. */
  lemma {:induction false} LoopIsGraft(t: Template, order: seq<string>, vals: Values, params: Params, keys: set<string>)
    requires Valued(vals, params, keys) && CoversAll(vals, vals, params) && Tidy(t, keys) && Covers(t, vals, params)
    requires forall k :: k in order ==> k in params
    ensures Tidy(Graft(t, order, vals), keys) && Covers(Graft(t, order, vals), vals, params)
    ensures ReplaceInOrder(Render(t), order, params) == Render(Graft(t, order, vals))
  {
    if order != [] {
      var before, last := order[..|order| - 1], order[|order| - 1];
      assert order == before + [last] && last in order;
      LoopIsGraft(t, before, vals, params, keys);
      OneRound(Graft(t, before, vals), last, vals, params, keys);
    }
  }

  lemma OneRound(t: Template, key: string, vals: Values, params: Params, keys: set<string>)
    requires Valued(vals, params, keys) && CoversAll(vals, vals, params) && Tidy(t, keys) && Covers(t, vals, params)
    requires key in params
    ensures var t' := if key in vals then Fill(t, map[key := vals[key]]) else t;
      && Tidy(t', keys) && Covers(t', vals, params)
      && Render(t') == if key == "" then Render(t) else ReplaceAll(Render(t), Placeholder(key), params[key])
  {
    if key in vals {
      FillTidy(t, map[key := vals[key]], keys);
      CoversFill(t, key, vals, vals, params);
      ReplaceIsFill(t, key, vals[key], keys);
    } else if key != "" {
      if key in Names(t) {
        ReplaceByItself(Render(t), Placeholder(key));
      } else {
        GuardedIsClear(t, map[key := params[key]], keys);
        ReplaceIsSubstitute(t, key, map[key := params[key]]);
        NothingToSubstitute(t, {key}, map[key := params[key]]);
      }
    }
  }

  lemma {:induction false} NothingToSubstitute(t: Template, names: set<string>, params: Params)
    requires names <= params.Keys && Names(t) !! names
    ensures SubstituteSome(t, names, params) == t
  {
    if t.Hole? {
      NothingToSubstitute(t.rest, names, params);
    }
  }

  lemma {:induction false} GraftNothing(t: Template, order: seq<string>, vals: Values)
    requires Names(t) !! vals.Keys
    ensures Graft(t, order, vals) == t
  {
    if order != [] {
      GraftNothing(t, order[..|order| - 1], vals);
      var last := order[|order| - 1];
      if last in vals {
        FillNothing(t, map[last := vals[last]]);
      }
    }
  }

  /** The same with the early exit: what a pass may make of the text is what grafting in some order makes of it. */
  lemma PassIsGraft(t: Template, order: seq<string>, vals: Values, params: Params, keys: set<string>)
    requires Valued(vals, params, keys) && CoversAll(vals, vals, params) && Tidy(t, keys) && Covers(t, vals, params)
    requires IsOrder(order, params)
    ensures Tidy(Graft(t, order, vals), keys) && Covers(Graft(t, order, vals), vals, params)
    ensures InOrder(Render(t), order, params) == Render(Graft(t, order, vals))
  {
    LoopIsGraft(t, order, vals, params, keys);
    match t
    case Last(lit) =>
      PlainHasNoMark(lit);
      GraftNothing(t, order, vals);
    case Open(lit, tail) =>
      ContainsAfter(lit, tail);
    case Hole(lit, name, rest) =>
      assert Render(t) == lit + MARK + (name + MARK + Render(rest));
      ContainsAfter(lit, name + MARK + Render(rest));
  }

  // ---------------------------------------------------------------- values whose own names are not replaced

  /** The values of the names in the template name no parameter that has a value. */
  ghost predicate Flat(t: Template, vals: Values) {
    forall n :: n in Names(t) && n in vals ==> Names(vals[n]) !! vals.Keys
  }

  /** A flat template is filled at once by any order that visits all parameters, and nothing is left to fill. */
  lemma {:induction false} FlatGraft(t: Template, order: seq<string>, vals: Values)
    requires Flat(t, vals)
    ensures Fill(Graft(t, order, vals), vals) == Fill(t, vals)
    ensures forall n :: n in Names(Graft(t, order, vals)) ==> n in Names(t) || n !in vals
    ensures forall n :: n in Names(Graft(t, order, vals)) && n in order ==> n !in vals
  {
    if order != [] {
      var before, last := order[..|order| - 1], order[|order| - 1];
      assert order == before + [last];
      FlatGraft(t, before, vals);
      var done := Graft(t, before, vals);
      if last in vals {
        NamesFillOne(done, last, vals[last]);
        FlatStep(done, last, vals);
      }
    }
  }

  lemma FlatStep(t: Template, key: string, vals: Values)
    requires key in vals && (key in Names(t) ==> Names(vals[key]) !! vals.Keys)
    ensures Fill(Fill(t, map[key := vals[key]]), vals) == Fill(t, vals)
  {
    var one := map[key := vals[key]];
    forall n | n in Names(t) ensures Fill(At(n, one), vals) == At(n, vals) {
      if n == key {
        FillNothing(vals[key], vals);
      } else {
        FillSelf(n, vals);
      }
    }
    FillTwice(t, one, vals, vals);
  }

  lemma FlatPass(t: Template, order: seq<string>, vals: Values)
    requires Flat(t, vals) && forall k :: k in vals ==> k in order
    ensures Graft(t, order, vals) == Fill(t, vals)
    ensures Names(Fill(t, vals)) !! vals.Keys
  {
    FlatGraft(t, order, vals);
    FillNothing(Graft(t, order, vals), vals);
  }

  // ---------------------------------------------------------------- two passes, with two sets of values

  /** Both passes treat the name alike: it has no value, or the same one in both, and that value names nothing. */
  ghost predicate Low(n: string, a: Values, b: Values) {
    && (n in a ==> n in b && a[n] == b[n])
    && (n in b ==> Names(b[n]) !! a.Keys + b.Keys)
  }

  /** The name is resolved at the latest by the second pass. */
  ghost predicate Top(n: string, a: Values, b: Values) {
    if n in a then forall m :: m in Names(a[n]) ==> Low(m, a, b) else Low(n, a, b)
  }

  /** No chain of names is longer than two: a name in the template, one in its value, and no further. */
  ghost predicate Shallow(t: Template, a: Values, b: Values) {
    forall n :: n in Names(t) ==> Top(n, a, b)
  }

  /** What both passes together put in place of each name. */
  function Both(a: Values, b: Values): Values {
    map n | n in a.Keys + b.Keys :: Fill(At(n, a), b)
  }

  lemma BothIsTwice(t: Template, a: Values, b: Values)
    ensures Fill(Fill(t, a), b) == Fill(t, Both(a, b))
  {
    forall n | n in Names(t) ensures Fill(At(n, a), b) == At(n, Both(a, b)) {
      FillSelf(n, b);
    }
    FillTwice(t, a, b, Both(a, b));
  }

  lemma BothOfLow(n: string, a: Values, b: Values)
    requires Low(n, a, b)
    ensures At(n, Both(a, b)) == At(n, b) && Top(n, a, b)
  {
    FillSelf(n, b);
    if n in a {
      FillNothing(b[n], b);
    }
  }

  lemma LowIsFilled(t: Template, a: Values, b: Values)
    requires forall n :: n in Names(t) ==> Low(n, a, b)
    ensures Fill(t, Both(a, b)) == Fill(t, b)
  {
    forall n | n in Names(t) ensures At(n, Both(a, b)) == At(n, b) {
      BothOfLow(n, a, b);
    }
    FillSame(t, Both(a, b), b);
  }

  lemma ShallowStep(t: Template, key: string, a: Values, b: Values)
    requires Shallow(t, a, b) && key in a
    ensures Fill(Fill(t, map[key := a[key]]), Both(a, b)) == Fill(t, Both(a, b))
    ensures Shallow(Fill(t, map[key := a[key]]), a, b)
    ensures forall n :: n in Names(Fill(t, map[key := a[key]])) ==> Low(n, a, b) || (n in Names(t) && n != key)
  {
    var one, c := map[key := a[key]], Both(a, b);
    NamesFillOne(t, key, a[key]);
    forall n | n in Names(t) ensures Fill(At(n, one), c) == At(n, c) {
      if n == key {
        LowIsFilled(a[key], a, b);
      } else {
        FillSelf(n, c);
      }
    }
    FillTwice(t, one, c, c);
    forall n | n in Names(Fill(t, one)) ensures Top(n, a, b) {
      if Low(n, a, b) {
        BothOfLow(n, a, b);
      }
    }
  }

  /** The first pass, in any order, leaves names of the second level only. */
  lemma {:induction false} FirstPass(t: Template, order: seq<string>, a: Values, b: Values)
    requires Shallow(t, a, b)
    ensures Fill(Graft(t, order, a), Both(a, b)) == Fill(t, Both(a, b)) && Shallow(Graft(t, order, a), a, b)
    ensures forall n :: n in Names(Graft(t, order, a)) && n in order ==> n !in a || Low(n, a, b)
  {
    if order != [] {
      var before, last := order[..|order| - 1], order[|order| - 1];
      assert order == before + [last];
      FirstPass(t, before, a, b);
      if last in a {
        ShallowStep(Graft(t, before, a), last, a, b);
      }
    }
  }

  /** Two passes, each in any order, fill in the first values and then the second, and leave nothing to fill. */
  lemma TwoPasses(t: Template, o1: seq<string>, o2: seq<string>, a: Values, b: Values)
    requires Shallow(t, a, b) && (forall k :: k in a ==> k in o1) && (forall k :: k in b ==> k in o2)
    ensures Graft(Graft(t, o1, a), o2, b) == Fill(Fill(t, a), b)
    ensures Names(Fill(Fill(t, a), b)) !! a.Keys + b.Keys
  {
    FirstPass(t, o1, a, b);
    var mid := Graft(t, o1, a);
    forall n | n in Names(mid) ensures Low(n, a, b) {
      assert Top(n, a, b);
    }
    LowIsFilled(mid, a, b);
    FlatPass(mid, o2, b);
    BothIsTwice(t, a, b);
    forall j | j in Names(Fill(mid, b)) ensures j !in a.Keys + b.Keys {
      NamesFill(mid, b, j);
      var n :| n in Names(mid) && j in Names(At(n, b));
      assert Low(n, a, b);
    }
  }

  // ---------------------------------------------------------------- and no more than two levels

  function LitLen(t: Template): nat {
    match t
    case Last(lit) => |lit|
    case Open(lit, tail) => |lit| + |tail|
    case Hole(lit, _, rest) => |lit| + LitLen(rest)
  }

  lemma {:induction false} LitLenConcat(a: Value, b: Template)
    ensures LitLen(Concat(a, b)) == LitLen(a) + LitLen(b)
  {
    if a.Hole? {
      LitLenConcat(a.rest, b);
    }
  }

  /** Filling never shortens the literal text, and lengthens it by that of a value that is filled in. */
  lemma {:induction false} FillLengthens(t: Template, key: string, v: Value)
    ensures LitLen(Fill(t, map[key := v])) >= LitLen(t) + if key in Names(t) then LitLen(v) else 0
  {
    if t.Hole? {
      FillLengthens(t.rest, key, v);
      LitLenConcat(At(t.name, map[key := v]), Fill(t.rest, map[key := v]));
    }
  }

  lemma {:induction false} GraftLengthens(t: Template, order: seq<string>, vals: Values)
    ensures LitLen(Graft(t, order, vals)) >= LitLen(t)
  {
    if order != [] {
      GraftLengthens(t, order[..|order| - 1], vals);
      var last := order[|order| - 1];
      if last in vals {
        FillLengthens(Graft(t, order[..|order| - 1], vals), last, vals[last]);
      }
    }
  }

  /** A name stays until its turn comes. */
  lemma {:induction false} NameStays(t: Template, order: seq<string>, vals: Values, n: string)
    requires n in Names(t) && n !in order
    ensures n in Names(Graft(t, order, vals))
  {
    if order != [] {
      var before, last := order[..|order| - 1], order[|order| - 1];
      assert order == before + [last];
      NameStays(t, before, vals, n);
      if last in vals {
        NamesFillOne(Graft(t, before, vals), last, vals[last]);
      }
    }
  }

  /** A parameter visited last leaves behind the names in its value, and itself only if it is one of them. */
  lemma VisitedLast(t: Template, front: seq<string>, k: string, vals: Values)
    requires k !in front && k in vals
    ensures k !in Names(vals[k]) ==> k !in Names(Graft(t, front + [k], vals))
    ensures k in Names(t) ==> Names(vals[k]) <= Names(Graft(t, front + [k], vals))
    ensures k in Names(t) ==> LitLen(Graft(t, front + [k], vals)) >= LitLen(t) + LitLen(vals[k])
  {
    var order := front + [k];
    assert order[..|order| - 1] == front;
    if k in Names(t) {
      NameStays(t, front, vals, k);
    }
    NamesFillOne(Graft(t, front, vals), k, vals[k]);
    GraftLengthens(t, front, vals);
    FillLengthens(Graft(t, front, vals), k, vals[k]);
  }

  /** A tidy value that names itself and is not just that name holds literal text. */
  lemma SelfNamingHasText(v: Value, k: string, keys: set<string>)
    requires Tidy(v, keys) && k in Names(v) && v != Self(k)
    ensures LitLen(v) > 0
  {
    if v.rest.Hole? {
      assert Guards(v.rest.lit, keys);
    }
  }

  // ---------------------------------------------------------------- what passes make of the text

  /** The template reads as the text, and the values are those of the parameters that come to be named. */
  ghost predicate Reads(t: Template, text: string, vals: Values, params: Params, keys: set<string>) {
    && Render(t) == text && Tidy(t, keys) && Covers(t, vals, params)
    && Valued(vals, params, keys) && CoversAll(vals, vals, params)
  }

  /** One pass resolves the text completely, whatever the order. */
  ghost predicate Direct(text: string, params: Params, keys: set<string>) {
    exists t, vals :: Reads(t, text, vals, params, keys) && Flat(t, vals)
  }

  lemma DirectOutcome(t: Template, text: string, vals: Values, params: Params, keys: set<string>, out: string)
    requires Reads(t, text, vals, params, keys) && Flat(t, vals) && Outcome(text, params, out)
    ensures out == Render(Fill(t, vals))
  {
    var order :| IsOrder(order, params) && out == InOrder(text, order, params);
    PassIsGraft(t, order, vals, params, keys);
    FlatPass(t, order, vals);
  }

  /** What the second parameters make of the values of the first is read as well. */
  ghost predicate ReadsBoth(t: Template, text: string, a: Values, first: Params, b: Values, second: Params, keys: set<string>) {
    && Reads(t, text, a, first, keys) && Reads(t, text, b, second, keys)
    && CoversAll(a, b, second) && CoversAll(b, a, first)
  }

  lemma {:induction false} GraftCovers(t: Template, order: seq<string>, vals: Values, over: Values, params: Params)
    requires Covers(t, over, params) && CoversAll(vals, over, params)
    ensures Covers(Graft(t, order, vals), over, params)
  {
    if order != [] {
      GraftCovers(t, order[..|order| - 1], vals, over, params);
      var last := order[|order| - 1];
      if last in vals {
        CoversFill(Graft(t, order[..|order| - 1], vals), last, vals, over, params);
      }
    }
  }

  lemma ReadsAfter(t: Template, text: string, a: Values, first: Params, b: Values, second: Params, keys: set<string>,
                   order: seq<string>)
    requires ReadsBoth(t, text, a, first, b, second, keys) && IsOrder(order, first)
    ensures ReadsBoth(Graft(t, order, a), InOrder(text, order, first), a, first, b, second, keys)
  {
    PassIsGraft(t, order, a, first, keys);
    GraftCovers(t, order, a, b, second);
  }

  /** Where no chain of names is longer than two, both passes together have one outcome. */
  lemma ShallowOutcome(t: Template, text: string, a: Values, first: Params, b: Values, second: Params, keys: set<string>,
                       mid: string, out: string)
    requires ReadsBoth(t, text, a, first, b, second, keys) && Shallow(t, a, b)
    requires Outcome(text, first, mid) && Outcome(mid, second, out)
    ensures out == Render(Fill(Fill(t, a), b))
    ensures ReadsBoth(Fill(Fill(t, a), b), out, a, first, b, second, keys)
    ensures Names(Fill(Fill(t, a), b)) !! a.Keys + b.Keys
  {
    var o1 :| IsOrder(o1, first) && mid == InOrder(text, o1, first);
    var o2 :| IsOrder(o2, second) && out == InOrder(mid, o2, second);
    ReadsAfter(t, text, a, first, b, second, keys, o1);
    ReadsAfter(Graft(t, o1, a), mid, b, second, a, first, keys, o2);
    TwoPasses(t, o1, o2, a, b);
  }

  lemma LastInOrder(params: Params, k: string) returns (front: seq<string>)
    requires k in params
    ensures k !in front && IsOrder(front + [k], params)
  {
    front := AnyOrder(params - {k});
    ListsMore(front, k, params.Keys - {k});
    assert params.Keys - {k} + {k} == params.Keys;
  }

  /** Some order of a pass leaves a name that the value of a named parameter holds. */
  lemma PassLeaves(t: Template, text: string, vals: Values, params: Params, keys: set<string>, k: string, j: string)
    returns (t': Template, out: string)
    requires Reads(t, text, vals, params, keys) && k in Names(t) && k in vals && j in Names(vals[k])
    ensures Outcome(text, params, out) && Reads(t', out, vals, params, keys) && j in Names(t')
  {
    var front := LastInOrder(params, k);
    PassIsGraft(t, front + [k], vals, params, keys);
    VisitedLast(t, front, k, vals);
    t', out := Graft(t, front + [k], vals), InOrder(text, front + [k], params);
  }

  /** Two passes over a text that names a parameter with a value may change it. */
  lemma PassesChange(t: Template, text: string, vals: Values, params: Params, keys: set<string>, k: string)
    returns (mid: string, out: string)
    requires Reads(t, text, vals, params, keys) && k in Names(t) && k in vals
    ensures Outcome(text, params, mid) && Outcome(mid, params, out) && out != text
  {
    var front := LastInOrder(params, k);
    var order := front + [k];
    PassIsGraft(t, order, vals, params, keys);
    VisitedLast(t, front, k, vals);
    var t1 := Graft(t, order, vals);
    PassIsGraft(t1, order, vals, params, keys);
    VisitedLast(t1, front, k, vals);
    var t2 := Graft(t1, order, vals);
    mid, out := Render(t1), Render(t2);
    if k in Names(vals[k]) {
      SelfNamingHasText(vals[k], k, keys);
      GraftLengthens(t1, order, vals);
    }
    assert t2 != t;
    if out == text {
      RenderInjective(t2, t);
    }
  }

  /** A third level of names may be left over by the first two passes, and the next two then change the text. */
  lemma DeepMayChange(t: Template, text: string, vals: Values, params: Params, keys: set<string>)
    returns (mid: string, out: string, mid': string, out': string)
    requires Reads(t, text, vals, params, keys) && !Shallow(t, vals, vals)
    ensures Outcome(text, params, mid) && Outcome(mid, params, out)
    ensures Outcome(out, params, mid') && Outcome(mid', params, out') && out' != out
  {
    var n :| n in Names(t) && !Top(n, vals, vals);
    var m :| m in Names(vals[n]) && !Low(m, vals, vals);
    var k :| k in Names(vals[m]) && k in vals;
    var t1, t2;
    t1, mid := PassLeaves(t, text, vals, params, keys, n, m);
    t2, out := PassLeaves(t1, mid, vals, params, keys, m, k);
    mid', out' := PassesChange(t2, out, vals, params, keys, k);
  }
}
