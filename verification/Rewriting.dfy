/**
 What a round of ReplaceAll makes of a template, misread or not, and from it the exact condition on the
 final text: every order ends in the simultaneous substitution exactly when no parameter is ever misread.

 A round that misreads joins neighbouring placeholders into one and swallows the text between them.  The
 measure is the length of the literal text that the remaining parameters would leave; proper rounds keep
 it, and for a suitable order misread rounds lower it.
 */
module Rewriting {
  import opened Substitution
  import opened Misreading

  // ---------------------------------------------------------------- one round as a function on templates

  function Rewrite(t: Template, key: string, value: string): Template
    decreases t, 0
  {
    match t
    case Hole(lit, name, rest) =>
      if name == key then Prepend(lit + value, Rewrite(rest, key, value)) else Join(lit, name, rest, key, value)
    case _ => t
  }

  /** The placeholder as far as it was read, and the scan at its closing marker. */
  function Join(lit: string, name: string, rest: Template, key: string, value: string): Template
    decreases rest, 1
  {
    if rest.Hole? && rest.lit == key then Join(lit, name + value + rest.name, rest.rest, key, value)
    else if rest.Open? && rest.lit == key then Open(lit, name + value + rest.tail)
    else Hole(lit, name, Rewrite(rest, key, value))
  }

  lemma {:induction false} RewriteKeepsPlain(t: Template, key: string, value: string)
    requires Plain(t) && Named(t) && NoCaret(value)
    ensures Plain(Rewrite(t, key, value)) && Named(Rewrite(t, key, value))
    decreases t, 0
  {
    if t.Hole? {
      if t.name == key {
        RewriteKeepsPlain(t.rest, key, value);
      } else {
        JoinKeepsPlain(t.lit, t.name, t.rest, key, value);
      }
    }
  }

  lemma {:induction false} JoinKeepsPlain(lit: string, name: string, rest: Template, key: string, value: string)
    requires NoCaret(lit) && NoCaret(name) && name != "" && Plain(rest) && Named(rest) && NoCaret(value)
    ensures Plain(Join(lit, name, rest, key, value)) && Named(Join(lit, name, rest, key, value))
    decreases rest, 1
  {
    if rest.Hole? && rest.lit == key {
      JoinKeepsPlain(lit, name + value + rest.name, rest.rest, key, value);
    } else if !(rest.Open? && rest.lit == key) {
      RewriteKeepsPlain(rest, key, value);
    }
  }

  /** The scan at a closing marker: it goes on over the key and the marker behind it, or lets the marker stand. */
  lemma AtClosingMark(rest: Template, key: string, value: string)
    requires Plain(rest) && NoCaret(key)
    ensures var what := Placeholder(key);
      ReplaceAll(MARK + Render(rest), what, value)
      == if rest.Hole? && rest.lit == key
         then value + rest.name + ReplaceAll(MARK + Render(rest.rest), what, value)
         else if rest.Open? && rest.lit == key then value + rest.tail
         else MARK + ReplaceAll(Render(rest), what, value)
  {
    var what := Placeholder(key);
    if rest.Hole? && rest.lit == key {
      OverKey(key, rest.name, Render(rest.rest), value);
    } else if rest.Open? && rest.lit == key {
      OverOpen(key, rest.tail, value);
    } else {
      NoNameAfterMark(rest, key);
      NoMatchAtEnd(Render(rest), key);
      SkipMark(Render(rest), what, value);
    }
  }

  /** ReplaceAll on the text is the rewriting of the template. */
  lemma {:induction false} RewriteIsReplaceAll(t: Template, key: string, value: string)
    requires Plain(t) && NoCaret(key)
    ensures ReplaceAll(Render(t), Placeholder(key), value) == Render(Rewrite(t, key, value))
    decreases t, 0
  {
    var what := Placeholder(key);
    match t
    case Last(lit) =>
      SkipText(lit, "", what, value);
      assert lit + "" == lit;
    case Open(lit, tail) =>
      OpenStays(lit, tail, key, value);
    case Hole(lit, name, rest) =>
      if name == key {
        OwnHole(lit, key, Render(rest), value);
        RewriteIsReplaceAll(rest, key, value);
        RenderPrepend(lit + value, Rewrite(rest, key, value));
      } else {
        OpeningMark(lit, name, Render(rest), key, value);
        JoinIsReplaceAll(lit, name, rest, key, value);
      }
  }

  lemma {:induction false} JoinIsReplaceAll(lit: string, name: string, rest: Template, key: string, value: string)
    requires Plain(rest) && NoCaret(key)
    ensures lit + MARK + name + ReplaceAll(MARK + Render(rest), Placeholder(key), value)
         == Render(Join(lit, name, rest, key, value))
    decreases rest, 1
  {
    AtClosingMark(rest, key, value);
    if rest.Hole? && rest.lit == key {
      JoinIsReplaceAll(lit, name + value + rest.name, rest.rest, key, value);
      Regroup(lit + MARK, name, value + rest.name, ReplaceAll(MARK + Render(rest.rest), Placeholder(key), value));
      assert name + value + rest.name == name + (value + rest.name);
    } else if rest.Open? && rest.lit == key {
      OpenText(lit, name, value, rest.tail);
    } else {
      RewriteIsReplaceAll(rest, key, value);
      Regroup(lit, MARK + name, MARK, Render(Rewrite(rest, key, value)));
      assert lit + (MARK + name) == lit + MARK + name;
    }
  }

  lemma OpenText(lit: string, name: string, value: string, tail: string)
    ensures lit + MARK + name + (value + tail) == Render(Open(lit, name + value + tail))
  {
    assert lit + MARK + name + (value + tail) == lit + MARK + (name + value + tail);
  }

  lemma Regroup(a: string, b: string, c: string, d: string)
    ensures a + b + (c + d) == a + (b + c) + d
  {
  }

  lemma {:induction false} RewriteIsSubstitute(t: Template, key: string, params: Params)
    requires NoMisread(t, key) && key in params
    ensures Rewrite(t, key, params[key]) == SubstituteSome(t, {key}, params)
  {
    if t.Hole? {
      RewriteIsSubstitute(t.rest, key, params);
    }
  }

  // ---------------------------------------------------------------- a template is determined by its text

  lemma {:induction false} RenderInjective(a: Template, b: Template)
    requires Plain(a) && Plain(b) && Render(a) == Render(b)
    ensures a == b
  {
    assert !a.Last? ==> '^' in Render(a) by {
      assert !a.Last? ==> Render(a)[|a.lit|] == '^';
    }
    assert !b.Last? ==> '^' in Render(b) by {
      assert !b.Last? ==> Render(b)[|b.lit|] == '^';
    }
    if !a.Last? && !b.Last? {
      RenderAfter(a);
      RenderAfter(b);
      SameLiteral(a.lit, After(a), b.lit, After(b));
      if a.Hole? && b.Hole? {
        SameLiteral(a.name, Render(a.rest), b.name, Render(b.rest));
        RenderInjective(a.rest, b.rest);
      }
    }
  }

  /** What follows the first marker. */
  function After(t: Template): string
    requires !t.Last?
  {
    if t.Open? then t.tail else t.name + MARK + Render(t.rest)
  }

  /** Only where a placeholder opens is there a caret behind the first marker. */
  lemma RenderAfter(t: Template)
    requires Plain(t) && !t.Last?
    ensures Render(t) == t.lit + MARK + After(t)
    ensures '^' in After(t) <==> t.Hole?
  {
    assert t.Hole? ==> After(t)[|t.name|] == '^';
  }

  lemma SameLiteral(lit: string, rest: string, lit': string, rest': string)
    requires NoCaret(lit) && NoCaret(lit') && lit + MARK + rest == lit' + MARK + rest'
    ensures lit == lit' && rest == rest'
  {
    var x, x' := "_^" + rest, "_^" + rest';
    assert lit + MARK + rest == lit + "^" + x && lit' + MARK + rest' == lit' + "^" + x';
    FirstCaret(lit, x, lit', x');
    SamePrefix(lit + "^", x, x');
    SamePrefix("_^", rest, rest');
  }

  // ---------------------------------------------------------------- the measure

  /** The length of the literal text once the given names are replaced. */
  function Weight(t: Template, names: set<string>, params: Params): nat
    requires names <= params.Keys
  {
    match t
    case Last(lit) => |lit|
    case Open(lit, _) => |lit|
    case Hole(lit, name, rest) => |lit| + (if name in names then |params[name]| else 0) + Weight(rest, names, params)
  }

  lemma {:induction false} WeightOfSubstitute(t: Template, done: set<string>, names: set<string>, params: Params)
    requires done <= names <= params.Keys
    ensures Weight(SubstituteSome(t, done, params), names - done, params) == Weight(t, names, params)
  {
    if t.Hole? {
      WeightOfSubstitute(t.rest, done, names, params);
    }
  }

  /** A joined placeholder with this name, should it be replaced later, does not give back the text it swallowed. */
  predicate Costs(name: string, key: string, left: set<string>, params: Params)
    requires left <= params.Keys
  {
    name in left ==> |params[name]| < |key|
  }

  /** No placeholder that this round joins gives back what it swallowed. */
  predicate Lossy(t: Template, key: string, left: set<string>, params: Params)
    requires left <= params.Keys && key in params
    decreases t, 0
  {
    match t
    case Hole(_, name, rest) =>
      if name == key then Lossy(rest, key, left, params) else LossyJoin(name, false, rest, key, left, params)
    case _ => true
  }

  predicate LossyJoin(name: string, joined: bool, rest: Template, key: string, left: set<string>, params: Params)
    requires left <= params.Keys && key in params
    decreases rest, 1
  {
    if rest.Hole? && rest.lit == key then LossyJoin(name + params[key] + rest.name, true, rest.rest, key, left, params)
    else if rest.Open? && rest.lit == key then true
    else (joined ==> Costs(name, key, left, params)) && Lossy(rest, key, left, params)
  }

  /** A round never raises the measure when its joins cost, and lowers it when it misreads. */
  lemma {:induction false} RoundLowers(t: Template, key: string, left: set<string>, params: Params)
    requires left <= params.Keys && key in params && key !in left && key != "" && Lossy(t, key, left, params)
    ensures Weight(Rewrite(t, key, params[key]), left, params) <= Weight(t, left + {key}, params)
    ensures !NoMisread(t, key) ==> Weight(Rewrite(t, key, params[key]), left, params) < Weight(t, left + {key}, params)
    decreases t, 0
  {
    if t.Hole? {
      if t.name == key {
        RoundLowers(t.rest, key, left, params);
      } else if t.rest.Hole? && t.rest.lit == key {
        JoinLowers(t.lit, t.name + params[key] + t.rest.name, t.rest.rest, key, left, params);
      } else {
        RoundLowers(t.rest, key, left, params);
      }
    }
  }

  lemma {:induction false} JoinLowers(lit: string, name: string, rest: Template, key: string, left: set<string>, params: Params)
    requires left <= params.Keys && key in params && key !in left && key != ""
    requires LossyJoin(name, true, rest, key, left, params)
    ensures Weight(Join(lit, name, rest, key, params[key]), left, params)
          < |lit| + |key| + Weight(rest, left + {key}, params)
    decreases rest, 1
  {
    if rest.Hole? && rest.lit == key {
      JoinLowers(lit, name + params[key] + rest.name, rest.rest, key, left, params);
    } else {
      RoundLowers(rest, key, left, params);
    }
  }

  // ---------------------------------------------------------------- rounds whose joins cost

  /** A later key is either shorter than every placeholder this round joins, or its value is shorter than the key. */
  predicate Outgrown(w: string, key: string, params: Params)
    requires w in params && key in params
  {
    |w| <= |params[key]| + 1 || |params[w]| < |key|
  }

  predicate LongerOrCosts(name: string, key: string, left: set<string>, params: Params)
    requires left <= params.Keys
  {
    forall w :: w in left ==> |w| < |name| || |params[w]| < |key|
  }

  /** Later keys that replacing would take the misreadings away are names of the placeholders being joined,
      so they are shorter than the joined name. */
  lemma {:induction false} RoundIsLossy(t: Template, key: string, left: set<string>, params: Params)
    requires Named(t) && left <= params.Keys && key in params && key !in left
    requires forall w :: w in left ==> Outgrown(w, key, params) || NoMisread(SubstituteSome(t, {w}, params), key)
    ensures Lossy(t, key, left, params)
    decreases t, 0
  {
    if t.Hole? {
      forall w | w in left
        ensures Outgrown(w, key, params) || NoMisread(SubstituteSome(t.rest, {w}, params), key)
      {
        TailNoMisread(t, w, key, params);
      }
      if t.name != key && t.rest.Hole? && t.rest.lit == key {
        var name := t.name + params[key] + t.rest.name;
        forall w | w in left ensures |w| < |name| || |params[w]| < |key| {
          JoinedIsLonger(t, w, key, params);
        }
        forall w | w in left
          ensures Outgrown(w, key, params) || NoMisread(SubstituteSome(t.rest.rest, {w}, params), key)
        {
          TailNoMisread(t.rest, w, key, params);
        }
        JoinIsLossy(name, t.rest.rest, key, left, params);
      } else {
        RoundIsLossy(t.rest, key, left, params);
      }
    }
  }

  lemma {:induction false} JoinIsLossy(name: string, rest: Template, key: string, left: set<string>, params: Params)
    requires Named(rest) && left <= params.Keys && key in params && key !in left
    requires LongerOrCosts(name, key, left, params)
    requires forall w :: w in left ==> Outgrown(w, key, params) || NoMisread(SubstituteSome(rest, {w}, params), key)
    ensures LossyJoin(name, true, rest, key, left, params)
    decreases rest, 1
  {
    if rest.Hole? && rest.lit == key {
      forall w | w in left
        ensures Outgrown(w, key, params) || NoMisread(SubstituteSome(rest.rest, {w}, params), key)
      {
        TailNoMisread(rest, w, key, params);
      }
      JoinIsLossy(name + params[key] + rest.name, rest.rest, key, left, params);
    } else {
      RoundIsLossy(rest, key, left, params);
    }
  }

  lemma TailNoMisread(t: Template, w: string, key: string, params: Params)
    requires t.Hole? && w in params
    ensures NoMisread(SubstituteSome(t, {w}, params), key) ==> NoMisread(SubstituteSome(t.rest, {w}, params), key)
  {
    if t.name == w {
      PrependKeepsNoMisread(t.lit + params[w], SubstituteSome(t.rest, {w}, params), key);
    }
  }

  lemma PrependKeepsNoMisread(text: string, t: Template, key: string)
    ensures NoMisread(Prepend(text, t), key) == NoMisread(t, key)
  {
  }

  lemma JoinedIsLonger(t: Template, w: string, key: string, params: Params)
    requires Named(t) && t.Hole? && t.name != key && t.rest.Hole? && t.rest.lit == key && w in params && key in params
    requires Outgrown(w, key, params) || NoMisread(SubstituteSome(t, {w}, params), key)
    ensures |w| < |t.name + params[key] + t.rest.name| || |params[w]| < |key|
  {
    if w != t.name && w != t.rest.name {
      assert SubstituteSome(t, {w}, params).rest.lit == key;
    }
  }

  // ---------------------------------------------------------------- all rounds

  function RewriteAll(t: Template, order: seq<string>, params: Params): Template
    requires forall k :: k in order ==> k in params
    decreases |order|
  {
    if order == [] then t else
      RewriteAll(Rewrite(t, order[0], params[order[0]]), order[1..], params)
  }

  lemma {:induction false} ReplaceInTurn(text: string, first: string, order: seq<string>, params: Params)
    requires first in params && first != ""
    ensures ReplaceInOrder(text, [first] + order, params)
         == ReplaceInOrder(ReplaceAll(text, Placeholder(first), params[first]), order, params)
  {
    var all := [first] + order;
    if order == [] {
      assert all[..0] == [] && ReplaceInOrder(text, all[..0], params) == text;
    } else {
      ReplaceInTurn(text, first, order[..|order| - 1], params);
      assert all[..|all| - 1] == [first] + order[..|order| - 1];
    }
  }

  lemma {:induction false} RewriteAllIsReplaceInOrder(t: Template, order: seq<string>, params: Params)
    requires Plain(t) && Named(t) && PlainParams(params) && forall k :: k in order ==> k in params && k != ""
    ensures Plain(RewriteAll(t, order, params))
    ensures ReplaceInOrder(Render(t), order, params) == Render(RewriteAll(t, order, params))
    decreases |order|
  {
    if order != [] {
      var first, rest := order[0], order[1..];
      assert first in order && order == [first] + rest && forall k :: k in rest ==> k in order;
      ReplaceInTurn(Render(t), first, rest, params);
      RewriteIsReplaceAll(t, first, params[first]);
      RewriteKeepsPlain(t, first, params[first]);
      RewriteAllIsReplaceInOrder(Rewrite(t, first, params[first]), rest, params);
    }
  }

  lemma ListsNext(first: string, order: seq<string>, names: set<string>)
    requires first in names && Lists(order, names - {first})
    ensures Lists([first] + order, names)
  {
    ListsBoth([first], order, {first}, names - {first});
    assert {first} + (names - {first}) == names;
  }

  lemma Longest(names: set<string>) returns (x: string)
    requires names != {}
    ensures x in names && forall w :: w in names ==> |w| <= |x|
  {
    x := Pick(names);
    var seen := {x};
    while seen < names
      invariant seen <= names && x in seen && forall w :: w in seen ==> |w| <= |x|
      decreases |names - seen|
    {
      var w := Pick(names - seen);
      if |w| > |x| {
        x := w;
      }
      seen := seen + {w};
    }
  }

  /** Some key outgrows all others: the longest, or one whose value is at least as long as that. */
  lemma SafeKey(names: set<string>, params: Params) returns (key: string)
    requires names != {} && names <= params.Keys
    ensures key in names && forall w :: w in names - {key} ==> Outgrown(w, key, params)
  {
    var x := Longest(names);
    if w :| w in names && |params[w]| >= |x| {
      key := w;
    } else {
      key := x;
    }
  }

  /** From every template some order never raises the measure. */
  lemma {:induction false} SafeOrder(t: Template, names: set<string>, params: Params) returns (order: seq<string>)
    requires Plain(t) && Named(t) && PlainParams(params) && names <= params.Keys - {""}
    ensures Lists(order, names)
    ensures Weight(RewriteAll(t, order, params), {}, params) <= Weight(t, names, params)
    decreases |names|
  {
    if names == {} {
      order := [];
    } else {
      var key := SafeKey(names, params);
      var left := names - {key};
      RoundIsLossy(t, key, left, params);
      RoundLowers(t, key, left, params);
      assert left + {key} == names;
      RewriteKeepsPlain(t, key, params[key]);
      var rest := SafeOrder(Rewrite(t, key, params[key]), left, params);
      ListsNext(key, rest, names);
      order := [key] + rest;
      assert order[1..] == rest;
    }
  }

  /** Replacing some of the names properly leads to a template in which another one is misread. */
  ghost predicate CanMisread(t: Template, names: set<string>, params: Params)
    requires names <= params.Keys
  {
    exists done: set<string>, key :: done <= names && key in names - done && !NoMisread(SubstituteSome(t, done, params), key)
  }

  lemma MisreadLater(t: Template, y: string, done: set<string>, key: string, names: set<string>, params: Params)
    requires names <= params.Keys && y in done && done <= names && key in names - done
    requires !NoMisread(SubstituteSome(t, done, params), key)
    ensures CanMisread(SubstituteSome(t, {y}, params), names - {y}, params)
  {
    SubstituteInTurn(t, y, done - {y}, params);
    assert {y} + (done - {y}) == done;
    assert done - {y} <= names - {y} && key in names - {y} - (done - {y});
  }

  lemma {:induction false} SubstituteInTurn(t: Template, y: string, done: set<string>, params: Params)
    requires y in params && done <= params.Keys
    ensures SubstituteSome(SubstituteSome(t, {y}, params), done, params) == SubstituteSome(t, {y} + done, params)
  {
    if t.Hole? {
      SubstituteInTurn(t.rest, y, done, params);
      if t.name == y {
        SubstitutePrepend(t.lit + params[y], SubstituteSome(t.rest, {y}, params), done, params);
      }
    }
  }

  /** Where a parameter can be misread, some order loses literal text for good. */
  lemma {:induction false} LosingOrder(t: Template, names: set<string>, params: Params) returns (order: seq<string>)
    requires Plain(t) && Named(t) && PlainParams(params) && names <= params.Keys - {""}
    requires CanMisread(t, names, params)
    ensures Lists(order, names)
    ensures Weight(RewriteAll(t, order, params), {}, params) < Weight(t, names, params)
    decreases |names|
  {
    if y :| y in names && NoMisread(t, y) && CanMisread(SubstituteSome(t, {y}, params), names - {y}, params) {
      order := ProperThenLose(t, y, names, params);
    } else {
      var misread := set k | k in names && !NoMisread(t, k);
      var done, key :| done <= names && key in names - done && !NoMisread(SubstituteSome(t, done, params), key);
      assert misread != {} by {
        if done == {} {
          SubstituteNothing(t, params);
          assert key in misread;
        } else {
          var y := Pick(done);
          MisreadLater(t, y, done, key, names, params);
          assert y in misread;
        }
      }
      order := LoseNow(t, misread, names, params);
    }
  }

  lemma ProperThenLose(t: Template, y: string, names: set<string>, params: Params) returns (order: seq<string>)
    requires Plain(t) && Named(t) && PlainParams(params) && names <= params.Keys - {""} && y in names
    requires NoMisread(t, y) && CanMisread(SubstituteSome(t, {y}, params), names - {y}, params)
    ensures Lists(order, names)
    ensures Weight(RewriteAll(t, order, params), {}, params) < Weight(t, names, params)
    decreases |names|, 0
  {
    RewriteIsSubstitute(t, y, params);
    SubstituteKeepsPlain(t, {y}, params);
    SubstituteKeepsNamed(t, {y}, params);
    WeightOfSubstitute(t, {y}, names, params);
    var rest := LosingOrder(SubstituteSome(t, {y}, params), names - {y}, params);
    ListsNext(y, rest, names);
    order := [y] + rest;
    assert order[1..] == rest;
  }

  /** When every proper step would take the misreading away, a misreading step is taken at once. */
  lemma LoseNow(t: Template, misread: set<string>, names: set<string>, params: Params) returns (order: seq<string>)
    requires Plain(t) && Named(t) && PlainParams(params) && names <= params.Keys - {""}
    requires misread == (set k | k in names && !NoMisread(t, k)) && misread != {}
    requires forall y :: y in names && NoMisread(t, y) ==> !CanMisread(SubstituteSome(t, {y}, params), names - {y}, params)
    ensures Lists(order, names)
    ensures Weight(RewriteAll(t, order, params), {}, params) < Weight(t, names, params)
  {
    var key := SafeKey(misread, params);
    var left := names - {key};
    forall w | w in left ensures Outgrown(w, key, params) || NoMisread(SubstituteSome(t, {w}, params), key) {
      if w !in misread {
        var u := SubstituteSome(t, {w}, params);
        SubstituteNothing(u, params);
        assert {} <= names - {w} && key in names - {w} - {};
      }
    }
    RoundIsLossy(t, key, left, params);
    RoundLowers(t, key, left, params);
    assert left + {key} == names;
    RewriteKeepsPlain(t, key, params[key]);
    var rest := SafeOrder(Rewrite(t, key, params[key]), left, params);
    ListsNext(key, rest, names);
    order := [key] + rest;
    assert order[1..] == rest;
  }

  // ---------------------------------------------------------------- the final text

  lemma EmptyKeyLast(text: string, order: seq<string>, params: Params)
    ensures ReplaceInOrder(text, order + [""], params) == ReplaceInOrder(text, order, params)
  {
    assert (order + [""])[..|order|] == order;
  }

  lemma MisreadOrderDiffers(t: Template, params: Params) returns (order: seq<string>)
    requires Plain(t) && Named(t) && PlainParams(params) && !NeverMisread(t, params)
    ensures IsOrder(order, params)
    ensures ReplaceInOrder(Render(t), order, params) != Render(Substitute(t, params))
  {
    var names := params.Keys - {""};
    var named := LosingOrder(t, names, params);
    RewriteAllIsReplaceInOrder(t, named, params);
    var end, meant := RewriteAll(t, named, params), Substitute(t, params);
    WeightOfSubstitute(t, names, names, params);
    assert names - names == {};
    SubstituteKeepsPlain(t, names, params);
    if Render(end) == Render(meant) {
      RenderInjective(end, meant);
    }
    order := named;
    if "" in params {
      EmptyKeyLast(Render(t), named, params);
      order := named + [""];
    }
  }

  /** Every order of the map ends in the simultaneous substitution if and only if no parameter is ever misread. */
  lemma FinalTextIff(t: Template, params: Params)
    requires Plain(t) && Named(t) && PlainParams(params)
    ensures (forall order :: IsOrder(order, params) ==> ReplaceInOrder(Render(t), order, params) == Render(Substitute(t, params)))
       <==> NeverMisread(t, params)
  {
    if NeverMisread(t, params) {
      forall order | IsOrder(order, params)
        ensures ReplaceInOrder(Render(t), order, params) == Render(Substitute(t, params))
      {
        NeverMisreadOrderDoesNotMatter(t, order, params);
      }
    } else {
      var order := MisreadOrderDiffers(t, params);
    }
  }
}
