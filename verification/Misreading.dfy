/**
 The exact condition under which every step of every replacement order does what is meant: at no point may
 the text between two placeholders that are still there be a parameter still to come.
 */
module Misreading {
  import opened Substitution

  /** The key does not stand between a placeholder and the next marker, unless the placeholder is its own. */
  predicate NoMisread(t: Template, key: string) {
    match t
    case Hole(_, name, rest) => (!rest.Last? && rest.lit == key ==> name == key) && NoMisread(rest, key)
    case _ => true
  }

  predicate Named(t: Template) {
    match t
    case Hole(_, name, rest) => name != "" && Named(rest)
    case _ => true
  }

  lemma SamePrefix(p: string, x: string, y: string)
    ensures p + x == p + y <==> x == y
  {
    assert (p + x)[|p|..] == x && (p + y)[|p|..] == y;
  }

  /** The marker that opens another placeholder, and its name, stay. */
  lemma OpeningMark(lit: string, name: string, rest: string, key: string, value: string)
    requires NoCaret(lit) && NoCaret(name) && NoCaret(key) && name != key
    ensures ReplaceAll(lit + Placeholder(name) + rest, Placeholder(key), value)
         == lit + MARK + name + ReplaceAll(MARK + rest, Placeholder(key), value)
  {
    var what := Placeholder(key);
    assert lit + Placeholder(name) + rest == lit + (Placeholder(name) + rest);
    SkipText(lit, Placeholder(name) + rest, what, value);
    SkipOpening(name, rest, key, value);
    var end := ReplaceAll(MARK + rest, what, value);
    assert lit + (MARK + name + end) == lit + MARK + name + end;
  }

  lemma AcrossText(key: string, name: string, rest: string)
    ensures MARK + (key + Placeholder(name) + rest) == Placeholder(key) + (name + (MARK + rest))
  {
  }

  /** A scan that reaches a marker before the key goes on over the key and the marker behind it. */
  lemma OverKey(key: string, name: string, rest: string, value: string)
    requires NoCaret(name)
    ensures ReplaceAll(MARK + (key + Placeholder(name) + rest), Placeholder(key), value)
         == value + name + ReplaceAll(MARK + rest, Placeholder(key), value)
  {
    var what, tail := Placeholder(key), name + (MARK + rest);
    AcrossText(key, name, rest);
    ReplaceHead(what, tail, value);
    SkipText(name, MARK + rest, what, value);
    Associate(value, name, ReplaceAll(MARK + rest, what, value));
  }

  /** A key that stands between two other placeholders takes the marker on each of its sides. */
  lemma ReadAcross(lit: string, name: string, key: string, next: string, more: string, value: string)
    requires NoCaret(lit) && NoCaret(name) && NoCaret(key) && NoCaret(next) && name != key
    ensures ReplaceAll(lit + Placeholder(name) + (key + Placeholder(next) + more), Placeholder(key), value)
         == lit + MARK + name + (value + next + ReplaceAll(MARK + more, Placeholder(key), value))
  {
    OpeningMark(lit, name, key + Placeholder(next) + more, key, value);
    OverKey(key, next, more, value);
  }

  /** The same where the second marker is the last one and lacks a partner. */
  lemma ReadAcrossOpen(lit: string, name: string, key: string, tail: string, value: string)
    requires NoCaret(lit) && NoCaret(name) && NoCaret(key) && NoCaret(tail) && name != key
    ensures ReplaceAll(lit + Placeholder(name) + (key + MARK + tail), Placeholder(key), value)
         == lit + MARK + name + (value + tail)
  {
    OpeningMark(lit, name, key + MARK + tail, key, value);
    OverOpen(key, tail, value);
  }

  lemma OverOpen(key: string, tail: string, value: string)
    requires NoCaret(tail)
    ensures ReplaceAll(MARK + (key + MARK + tail), Placeholder(key), value) == value + tail
  {
    assert MARK + (key + MARK + tail) == Placeholder(key) + tail;
    ReplaceHead(Placeholder(key), tail, value);
    SkipText(tail, "", Placeholder(key), value);
    assert tail + "" == tail;
  }

  lemma ReadAcrossOpenDiffers(lit: string, name: string, x: string, y: string)
    requires NoCaret(x)
    ensures lit + MARK + name + x != lit + Placeholder(name) + y
  {
    var p := lit + MARK + name;
    assert lit + Placeholder(name) + y == p + (MARK + y);
    SamePrefix(p, x, MARK + y);
    assert (MARK + y)[0] == '^';
  }

  lemma ReadAcrossDiffers(lit: string, name: string, value: string, next: string, x: string, y: string)
    requires NoCaret(value) && NoCaret(next) && next != ""
    ensures lit + MARK + name + (value + next + x) != lit + Placeholder(name) + y
  {
    var p := lit + MARK + name;
    assert lit + Placeholder(name) + y == p + (MARK + y);
    SamePrefix(p, value + next + x, MARK + y);
    assert (value + next + x)[0] == (value + next)[0] && (value + next)[0] in value + next;
    assert (MARK + y)[0] == '^';
  }

  /** One ReplaceAll replaces exactly the placeholders of its key if and only if the key is not misread. */
  lemma {:induction false} ReplaceIsSubstituteIff(t: Template, key: string, params: Params)
    requires Plain(t) && Named(t) && key in params && key != "" && NoCaret(key) && NoCaret(params[key])
    ensures ReplaceAll(Render(t), Placeholder(key), params[key]) == Render(SubstituteSome(t, {key}, params))
       <==> NoMisread(t, key)
  {
    var what, value := Placeholder(key), params[key];
    match t
    case Last(lit) =>
      SkipText(lit, "", what, value);
      assert lit + "" == lit;
    case Open(lit, tail) =>
      OpenStays(lit, tail, key, value);
    case Hole(lit, name, rest) =>
      var r := SubstituteSome(rest, {key}, params);
      if name == key {
        OwnHole(lit, key, Render(rest), value);
        RenderPrepend(lit + value, r);
        ReplaceIsSubstituteIff(rest, key, params);
        SamePrefix(lit + value, ReplaceAll(Render(rest), what, value), Render(r));
      } else if rest.Hole? && rest.lit == key {
        ReadAcross(lit, name, key, rest.name, Render(rest.rest), value);
        ReadAcrossDiffers(lit, name, value, rest.name, ReplaceAll(MARK + Render(rest.rest), what, value), Render(r));
      } else if rest.Open? && rest.lit == key {
        ReadAcrossOpen(lit, name, key, rest.tail, value);
        ReadAcrossOpenDiffers(lit, name, value + rest.tail, Render(r));
      } else {
        ReplaceInHole(lit, name, rest, key, value);
        ReplaceIsSubstituteIff(rest, key, params);
        SamePrefix(lit + Placeholder(name), ReplaceAll(Render(rest), what, value), Render(r));
      }
  }

  lemma OwnHole(lit: string, key: string, rest: string, value: string)
    requires NoCaret(lit)
    ensures ReplaceAll(lit + Placeholder(key) + rest, Placeholder(key), value)
         == lit + value + ReplaceAll(rest, Placeholder(key), value)
  {
    var what := Placeholder(key);
    assert lit + what + rest == lit + (what + rest);
    SkipText(lit, what + rest, what, value);
    ReplaceHead(what, rest, value);
    assert lit + (value + ReplaceAll(rest, what, value)) == lit + value + ReplaceAll(rest, what, value);
  }

  // ---------------------------------------------------------------- all orders

  /** Whatever has been replaced so far, no parameter still to come is misread. */
  ghost predicate NeverMisread(t: Template, params: Params) {
    forall done: set<string>, key :: done <= params.Keys - {""} && key in params.Keys - {""} - done ==>
      NoMisread(SubstituteSome(t, done, params), key)
  }

  /** After every step of the order the text is the template with the parameters so far replaced. */
  ghost predicate ProperThroughout(t: Template, order: seq<string>, params: Params)
    requires forall k :: k in order ==> k in params
  {
    forall n :: 0 <= n <= |order| ==>
      (NamesOf(order[..n]) <= params.Keys
       && ReplaceInOrder(Render(t), order[..n], params) == Render(SubstituteSome(t, NamesOf(order[..n]), params)))
  }

  lemma {:induction false} SubstituteKeepsNamed(t: Template, names: set<string>, params: Params)
    requires names <= params.Keys && Named(t)
    ensures Named(SubstituteSome(t, names, params))
  {
    if t.Hole? {
      SubstituteKeepsNamed(t.rest, names, params);
    }
  }

  /** One more step stays proper exactly when the key of that step is not misread. */
  lemma NextStepIff(t: Template, before: seq<string>, key: string, params: Params)
    requires Plain(t) && Named(t) && PlainParams(params) && (forall k :: k in before ==> k in params)
    requires key in params && key != "" && NamesOf(before) <= params.Keys
    requires ReplaceInOrder(Render(t), before, params) == Render(SubstituteSome(t, NamesOf(before), params))
    ensures NamesOf(before + [key]) == NamesOf(before) + {key}
    ensures ReplaceInOrder(Render(t), before + [key], params) == Render(SubstituteSome(t, NamesOf(before + [key]), params))
       <==> NoMisread(SubstituteSome(t, NamesOf(before), params), key)
  {
    var now := SubstituteSome(t, NamesOf(before), params);
    assert (before + [key])[..|before|] == before;
    assert NamesOf(before + [key]) == NamesOf(before) + {key};
    SubstituteKeepsPlain(t, NamesOf(before), params);
    SubstituteKeepsNamed(t, NamesOf(before), params);
    ReplaceIsSubstituteIff(now, key, params);
    SubstituteOneMore(t, NamesOf(before), key, params);
  }

  lemma {:induction false} NeverMisreadIsProper(t: Template, keys: seq<string>, params: Params)
    requires Plain(t) && Named(t) && PlainParams(params) && NeverMisread(t, params)
    requires (forall k :: k in keys ==> k in params) && forall i, j :: 0 <= i < j < |keys| ==> keys[i] != keys[j]
    ensures NamesOf(keys) <= params.Keys
    ensures ReplaceInOrder(Render(t), keys, params) == Render(SubstituteSome(t, NamesOf(keys), params))
  {
    if keys == [] {
      SubstituteNothing(t, params);
      assert NamesOf(keys) == {};
    } else {
      var before, last := keys[..|keys| - 1], keys[|keys| - 1];
      NeverMisreadIsProper(t, before, params);
      assert keys == before + [last] && last in params;
      if last == "" {
        assert NamesOf(keys) == NamesOf(before);
      } else {
        assert last !in before;
        NextStepIff(t, before, last, params);
      }
    }
  }

  /** Some order visits the given parameters first and then the given key. */
  lemma OrderVia(done: set<string>, key: string, params: Params) returns (order: seq<string>, n: nat)
    requires done <= params.Keys - {""} && key in params.Keys - {""} - done
    ensures IsOrder(order, params) && n < |order| && order[n] == key && NamesOf(order[..n]) == done
  {
    var first := AnyOrder(map k | k in done :: params[k]);
    var last := AnyOrder(params - done - {key});
    n := |first|;
    ListsMore(first, key, done);
    ListsBoth(first + [key], last, done + {key}, params.Keys - done - {key});
    order := first + [key] + last;
    assert order[..n] == first && done + {key} + (params.Keys - done - {key}) == params.Keys;
  }

  lemma NeverMisreadThroughout(t: Template, order: seq<string>, params: Params)
    requires Plain(t) && Named(t) && PlainParams(params) && NeverMisread(t, params) && IsOrder(order, params)
    ensures ProperThroughout(t, order, params)
  {
    forall n | 0 <= n <= |order|
      ensures NamesOf(order[..n]) <= params.Keys
      ensures ReplaceInOrder(Render(t), order[..n], params) == Render(SubstituteSome(t, NamesOf(order[..n]), params))
    {
      NeverMisreadIsProper(t, order[..n], params);
    }
  }

  lemma ProperIsNotMisread(t: Template, done: set<string>, key: string, params: Params)
    requires Plain(t) && Named(t) && PlainParams(params)
    requires forall order :: IsOrder(order, params) ==> ProperThroughout(t, order, params)
    requires done <= params.Keys - {""} && key in params.Keys - {""} - done
    ensures NoMisread(SubstituteSome(t, done, params), key)
  {
    var order, n := OrderVia(done, key, params);
    assert ProperThroughout(t, order, params);
    assert order[..n + 1] == order[..n] + [key];
    NextStepIff(t, order[..n], key, params);
  }

  /** Every step of every order is a substitution of its own parameter, and of nothing else, exactly when no
      parameter is ever misread. */
  lemma EveryStepProperIff(t: Template, params: Params)
    requires Plain(t) && Named(t) && PlainParams(params)
    ensures (forall order :: IsOrder(order, params) ==> ProperThroughout(t, order, params)) <==> NeverMisread(t, params)
  {
    if NeverMisread(t, params) {
      forall order | IsOrder(order, params) ensures ProperThroughout(t, order, params) {
        NeverMisreadThroughout(t, order, params);
      }
    }
    if forall order :: IsOrder(order, params) ==> ProperThroughout(t, order, params) {
      forall done: set<string>, key | done <= params.Keys - {""} && key in params.Keys - {""} - done
        ensures NoMisread(SubstituteSome(t, done, params), key)
      {
        ProperIsNotMisread(t, done, key, params);
      }
    }
  }

  /** Then every order ends in the simultaneous substitution. */
  lemma NeverMisreadOrderDoesNotMatter(t: Template, order: seq<string>, params: Params)
    requires Plain(t) && Named(t) && PlainParams(params) && NeverMisread(t, params) && IsOrder(order, params)
    ensures ReplaceInOrder(Render(t), order, params) == Render(Substitute(t, params))
  {
    NeverMisreadIsProper(t, order, params);
    assert NamesOf(order) == params.Keys - {""};
  }
}
