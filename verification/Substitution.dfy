/**
 Placeholder substitution.  A template is text in which a name stands between two markers "^_^".  The
 code replaces one parameter after another, in the arbitrary order of a map; what is meant is one
 simultaneous substitution that leaves unknown names alone.
 */
module Substitution {
  import opened Collections

  const MARK: string := "^_^"

  type Params = map<string, string>

  function Placeholder(name: string): string {
    MARK + name + MARK
  }

  // ---------------------------------------------------------------- the code

  /** Replaces every occurrence, scanning from the left and never overlapping. */
  function ReplaceAll(text: string, what: string, value: string): string
    requires what != ""
  {
    if text == "" then ""
    else if what <= text then value + ReplaceAll(text[|what|..], what, value)
    else [text[0]] + ReplaceAll(text[1..], what, value)
  }

  predicate Contains(text: string, part: string) {
    part <= text || (text != "" && Contains(text[1..], part))
  }

  /** One ReplaceAll per key, in the given order; the empty key is skipped. */
  function ReplaceInOrder(text: string, keys: seq<string>, params: Params): string {
    if keys == [] then text else
      var last := keys[|keys| - 1];
      var done := ReplaceInOrder(text, keys[..|keys| - 1], params);
      if last == "" || last !in params then done else ReplaceAll(done, Placeholder(last), params[last])
  }

  /** The list names each member of the set once. */
  ghost predicate Lists(order: seq<string>, names: set<string>) {
    && (forall k :: k in order <==> k in names)
    && (forall i, j :: 0 <= i < j < |order| ==> order[i] != order[j])
  }

  lemma ListsBoth(a: seq<string>, b: seq<string>, names: set<string>, others: set<string>)
    requires Lists(a, names) && Lists(b, others) && names !! others
    ensures Lists(a + b, names + others)
  {
    var all := a + b;
    forall i, j | 0 <= i < j < |all| ensures all[i] != all[j] {
      if i < |a| <= j {
        assert all[i] in a && all[j] in b;
      }
    }
  }

  lemma ListsMore(order: seq<string>, k: string, names: set<string>)
    requires Lists(order, names) && k !in names
    ensures Lists(order + [k], names + {k})
  {
    ListsBoth(order, [k], names, {k});
  }

  /** The order in which a loop over the map may visit its keys. */
  ghost predicate IsOrder(order: seq<string>, params: Params) {
    Lists(order, params.Keys)
  }

  /** The loop, with its early exit for text that holds no marker. */
  function InOrder(template: string, keys: seq<string>, params: Params): string {
    if Contains(template, MARK) then ReplaceInOrder(template, keys, params) else template
  }

  /** Some order of replacement turns the text into the outcome. */
  ghost predicate Outcome(text: string, params: Params, out: string) {
    exists order :: IsOrder(order, params) && out == InOrder(text, order, params)
  }

  /** Replaces the placeholders; the loop visits the parameters in an arbitrary order.  Read as a template
      that no order can misread, the text is substituted. */
  method ReplaceParamPlaceholders(template: string, params: Params) returns (result: string)
    ensures Outcome(template, params, result)
    ensures PlainParams(params) ==>
      forall t :: Plain(t) && Clear(t, params) && Render(t) == template ==> result == Render(Substitute(t, params))
    ensures PlainParams(params) ==> forall lit, name, tail ::
      '^' !in lit + name + tail && name != "" && template == lit + "^_^" + name + "^_^" + tail ==>
        result == if name in params then lit + params[name] + tail else template
    ensures !Contains(template, "^_^") || params.Keys <= {""} ==> result == template
  {
    ghost var order;
    result, order := ReplaceInSomeOrder(template, params);
    if PlainParams(params) {
      forall lit, name, tail | '^' !in lit + name + tail && name != "" && template == lit + "^_^" + name + "^_^" + tail
        ensures result == if name in params then lit + params[name] + tail else template
      {
        OnePlaceholder(lit, name, tail, order, params);
      }
    }
    if params.Keys <= {""} {
      NoNamesNoChange(template, order, params);
    }
    if PlainParams(params) {
      forall t | Plain(t) && Clear(t, params) && Render(t) == template ensures result == Render(Substitute(t, params)) {
        InOrderDoesNotMatter(t, order, params);
      }
    }
  }

  method ReplaceInSomeOrder(template: string, params: Params) returns (result: string, ghost order: seq<string>)
    ensures IsOrder(order, params)
    ensures result == InOrder(template, order, params)
  {
    if template == "" || !Contains(template, MARK) {
      order := AnyOrder(params);
      return template, order;
    }
    result, order := template, [];
    var left := params.Keys;
    while left != {}
      invariant left <= params.Keys
      invariant forall k :: k in order <==> k in params && k !in left
      invariant forall i, j :: 0 <= i < j < |order| ==> order[i] != order[j]
      invariant result == ReplaceInOrder(template, order, params)
    {
      var name := Choose(left);
      if name != "" {
        result := ReplaceAll(result, Placeholder(name), params[name]);
      }
      assert (order + [name])[..|order|] == order;
      order := order + [name];
      left := left - {name};
    }
  }

  lemma AnyOrder(params: Params) returns (order: seq<string>)
    ensures IsOrder(order, params)
  {
    order := [];
    var left := params.Keys;
    while left != {}
      invariant left <= params.Keys
      invariant forall k :: k in order <==> k in params && k !in left
      invariant forall i, j :: 0 <= i < j < |order| ==> order[i] != order[j]
    {
      var name := Pick(left);
      order := order + [name];
      left := left - {name};
    }
  }

  lemma Pick<T>(s: set<T>) returns (x: T)
    requires s != {}
    ensures x in s
  {
    x :| x in s;
  }

  // ---------------------------------------------------------------- what is meant

  /** A template taken apart: literal text, then a placeholder, then the rest.  The last marker may lack a partner. */
  datatype Template =
    | Last(lit: string)
    | Open(lit: string, tail: string)
    | Hole(lit: string, name: string, rest: Template)

  function Render(t: Template): string {
    match t
    case Last(lit) => lit
    case Open(lit, tail) => lit + MARK + tail
    case Hole(lit, name, rest) => lit + Placeholder(name) + Render(rest)
  }

  function Prepend(text: string, t: Template): Template {
    match t
    case Last(lit) => Last(text + lit)
    case Open(lit, tail) => Open(text + lit, tail)
    case Hole(lit, name, rest) => Hole(text + lit, name, rest)
  }

  /** The names of the given set replaced at once, all others left as they are. */
  function SubstituteSome(t: Template, names: set<string>, params: Params): Template
    requires names <= params.Keys
  {
    match t
    case Hole(lit, name, rest) =>
      if name in names then Prepend(lit + params[name], SubstituteSome(rest, names, params))
      else Hole(lit, name, SubstituteSome(rest, names, params))
    case _ => t
  }

  /** One simultaneous substitution of every parameter that has a name. */
  function Substitute(t: Template, params: Params): Template {
    SubstituteSome(t, params.Keys - {""}, params)
  }

  predicate NoCaret(text: string) {
    '^' !in text
  }

  predicate Plain(t: Template) {
    match t
    case Last(lit) => NoCaret(lit)
    case Open(lit, tail) => NoCaret(lit) && NoCaret(tail)
    case Hole(lit, name, rest) => NoCaret(lit) && NoCaret(name) && Plain(rest)
  }

  predicate PlainParams(params: Params) {
    forall k :: k in params ==> NoCaret(k) && NoCaret(params[k])
  }

  /** What could come to stand between the placeholder before this text and some later marker, once the
      placeholders between them are replaced. */
  function Readings(t: Template, params: Params): set<string> {
    match t
    case Last(_) => {}
    case Open(lit, _) => {lit}
    case Hole(lit, name, rest) =>
      {lit} + if name in params then set r | r in Readings(rest, params) :: lit + params[name] + r else {}
  }

  /** No text between two placeholders can ever be taken for the name of a parameter. */
  predicate Clear(t: Template, params: Params) {
    match t
    case Hole(_, _, rest) => Readings(rest, params) !! params.Keys - {""} && Clear(rest, params)
    case _ => true
  }

  // ---------------------------------------------------------------- one parameter

  function CaretIndex(text: string): nat {
    if text == "" || text[0] == '^' then 0 else 1 + CaretIndex(text[1..])
  }

  lemma {:induction false} CaretIndexAfter(a: string, x: string)
    requires NoCaret(a)
    ensures CaretIndex(a + "^" + x) == |a|
  {
    if a != "" {
      CaretIndexAfter(a[1..], x);
      assert (a + "^" + x)[1..] == a[1..] + "^" + x;
    }
  }

  lemma {:induction false} CaretIndexOfPrefix(p: string, t: string)
    requires p <= t && '^' in p
    ensures CaretIndex(p) == CaretIndex(t)
  {
    if p[0] != '^' {
      CaretIndexOfPrefix(p[1..], t[1..]);
    }
  }

  lemma PrefixOfSum(m: string, p: string, q: string)
    ensures m + p <= m + q <==> p <= q
  {
    assert forall i :: 0 <= i < |p| ==> (m + p)[|m| + i] == p[i];
    assert forall i :: 0 <= i < |q| ==> (m + q)[|m| + i] == q[i];
    if m + p <= m + q {
      forall i | 0 <= i < |p| ensures p[i] == q[i] {
        assert (m + p)[|m| + i] == (m + q)[|m| + i];
      }
    }
  }

  /** Two caret-free texts that are followed by a caret and agree up to there are equal. */
  lemma FirstCaret(a: string, x: string, b: string, y: string)
    requires NoCaret(a) && NoCaret(b) && a + "^" + x <= b + "^" + y
    ensures a == b && x <= y
  {
    var left, right := a + "^" + x, b + "^" + y;
    assert left[|a|] == '^';
    CaretIndexOfPrefix(left, right);
    CaretIndexAfter(a, x);
    CaretIndexAfter(b, y);
    assert left[..|a|] == a && right[..|a|] == b;
    PrefixOfSum(a + "^", x, y);
  }

  lemma CaretNeeded(a: string, x: string, text: string)
    requires NoCaret(text)
    ensures !(a + "^" + x <= text)
  {
    var p := a + "^" + x;
    assert p[|a|] == '^';
  }

  lemma SkipOne(c: char, rest: string, what: string, value: string)
    requires what != "" && !(what <= [c] + rest)
    ensures ReplaceAll([c] + rest, what, value) == [c] + ReplaceAll(rest, what, value)
  {
    assert ([c] + rest)[1..] == rest;
  }

  /** Text without carets passes through. */
  lemma {:induction false} SkipText(text: string, rest: string, what: string, value: string)
    requires NoCaret(text) && what != "" && what[0] == '^'
    ensures ReplaceAll(text + rest, what, value) == text + ReplaceAll(rest, what, value)
  {
    if text == "" {
      assert text + rest == rest;
    } else {
      assert text + rest == [text[0]] + (text[1..] + rest);
      SkipText(text[1..], rest, what, value);
      SkipOne(text[0], text[1..] + rest, what, value);
      assert text == [text[0]] + text[1..];
    }
  }

  /** The rest of a template neither begins with the key and a marker, nor can its first literal complete a marker. */
  lemma NoNameAfterMark(rest: Template, key: string)
    requires Plain(rest) && NoCaret(key) && (!rest.Last? ==> rest.lit != key)
    ensures !(key + MARK <= Render(rest))
    ensures !("_^" + key + MARK <= Render(rest))
  {
    MarkApart(key);
    match rest
    case Last(lit) =>
      CaretNeeded(key, "_^", lit);
      CaretNeeded("_", key + MARK, lit);
    case Open(lit, tail) =>
      NoNameBefore(lit, tail, key);
      MarkBehind(lit, tail);
    case Hole(lit, name, more) =>
      var after := name + MARK + Render(more);
      NoNameBefore(lit, after, key);
      MarkBehind(lit, after);
      assert Render(rest) == lit + MARK + after;
  }

  lemma MarkApart(key: string)
    ensures key + MARK == key + "^" + "_^" && "_^" + key + MARK == "_" + "^" + (key + MARK)
  {
  }

  lemma MarkBehind(lit: string, after: string)
    ensures lit + MARK + after == lit + "^" + ("_^" + after)
  {
  }

  /** The same for a literal that another marker follows. */
  lemma NoNameBefore(lit: string, after: string, key: string)
    requires NoCaret(lit) && NoCaret(key) && lit != key
    ensures !(key + "^" + "_^" <= lit + "^" + ("_^" + after))
    ensures !("_" + "^" + (key + MARK) <= lit + "^" + ("_^" + after))
  {
    if key + "^" + "_^" <= lit + "^" + ("_^" + after) {
      FirstCaret(key, "_^", lit, "_^" + after);
    }
    if "_" + "^" + (key + MARK) <= lit + "^" + ("_^" + after) {
      FirstCaret("_", key + MARK, lit, "_^" + after);
      assert key + MARK == key + "^" + "_^" && "_^" + after == "_" + "^" + after;
      FirstCaret(key, "_^", "_", after);
    }
  }

  /** A placeholder with another name passes through, and so do the markers around it. */
  lemma SkipHole(name: string, rest: Template, key: string, value: string)
    requires NoCaret(name) && Plain(rest) && NoCaret(key) && name != key
    requires !rest.Last? ==> rest.lit != key
    ensures ReplaceAll(Placeholder(name) + Render(rest), Placeholder(key), value)
         == Placeholder(name) + ReplaceAll(Render(rest), Placeholder(key), value)
  {
    var what, r := Placeholder(key), Render(rest);
    SkipOpening(name, r, key, value);
    NoNameAfterMark(rest, key);
    NoMatchAtEnd(r, key);
    SkipMark(r, what, value);
    assert MARK + name + (MARK + ReplaceAll(r, what, value)) == Placeholder(name) + ReplaceAll(r, what, value);
  }

  /** The opening marker of another placeholder passes through, and so does its name. */
  lemma SkipOpening(name: string, r: string, key: string, value: string)
    requires NoCaret(name) && NoCaret(key) && name != key
    ensures ReplaceAll(Placeholder(name) + r, Placeholder(key), value)
         == MARK + name + ReplaceAll(MARK + r, Placeholder(key), value)
  {
    var what, body := Placeholder(key), name + MARK + r;
    Associate(MARK, name + MARK, r);
    Associate(MARK, name, MARK);
    NoMatchAtName(name, r, key);
    SkipMark(body, what, value);
    Associate(name, MARK, r);
    SkipText(name, MARK + r, what, value);
    Associate(MARK, name, ReplaceAll(MARK + r, what, value));
  }

  lemma Associate(a: string, b: string, c: string)
    ensures a + (b + c) == a + b + c
  {
  }

  /** A marker passes through when no occurrence starts at either of its carets. */
  lemma SkipMark(tail: string, what: string, value: string)
    requires what != "" && what[0] == '^' && !(what <= MARK + tail) && !(what <= "^" + tail)
    ensures ReplaceAll(MARK + tail, what, value) == MARK + ReplaceAll(tail, what, value)
  {
    assert MARK + tail == "^" + ("_" + ("^" + tail));
    SkipOne('^', "_" + ("^" + tail), what, value);
    SkipOne('_', "^" + tail, what, value);
    SkipOne('^', tail, what, value);
    assert MARK + ReplaceAll(tail, what, value) == "^" + ("_" + ("^" + ReplaceAll(tail, what, value)));
  }

  lemma NoMatchAtEnd(r: string, key: string)
    requires !(key + MARK <= r) && !("_^" + key + MARK <= r)
    ensures !(Placeholder(key) <= MARK + r) && !(Placeholder(key) <= "^" + r)
  {
    assert Placeholder(key) == MARK + (key + MARK) == "^" + ("_^" + key + MARK);
    PrefixOfSum(MARK, key + MARK, r);
    PrefixOfSum("^", "_^" + key + MARK, r);
  }

  /** No occurrence of the key's placeholder starts at either caret of the opening marker of another name. */
  lemma NoMatchAtName(name: string, r: string, key: string)
    requires NoCaret(name) && NoCaret(key) && name != key
    ensures !(Placeholder(key) <= MARK + (name + MARK + r)) && !(Placeholder(key) <= "^" + (name + MARK + r))
  {
    MarkApart(key);
    MarkBehind(name, r);
    NoNameBefore(name, r, key);
    NoMatchAtEnd(name + MARK + r, key);
  }

  lemma ReplaceHead(what: string, r: string, value: string)
    requires what != ""
    ensures ReplaceAll(what + r, what, value) == value + ReplaceAll(r, what, value)
  {
    assert (what + r)[|what|..] == r;
  }

  /** A last marker without a partner stays, and so does the text around it. */
  lemma OpenStays(lit: string, tail: string, key: string, value: string)
    requires NoCaret(lit) && NoCaret(tail)
    ensures ReplaceAll(lit + MARK + tail, Placeholder(key), value) == lit + MARK + tail
  {
    var what := Placeholder(key);
    assert lit + MARK + tail == lit + (MARK + tail);
    SkipText(lit, MARK + tail, what, value);
    MarkApart(key);
    CaretNeeded(key, "_^", tail);
    CaretNeeded("_", key + MARK, tail);
    NoMatchAtEnd(tail, key);
    SkipMark(tail, what, value);
    SkipText(tail, "", what, value);
    assert tail + "" == tail;
  }

  lemma RenderPrepend(text: string, t: Template)
    ensures Render(Prepend(text, t)) == text + Render(t)
  {
  }

  /** One ReplaceAll replaces exactly the placeholders of its key. */
  lemma {:induction false} ReplaceIsSubstitute(t: Template, key: string, params: Params)
    requires Plain(t) && Clear(t, params) && key in params && key != "" && NoCaret(key)
    ensures ReplaceAll(Render(t), Placeholder(key), params[key]) == Render(SubstituteSome(t, {key}, params))
  {
    var what, value := Placeholder(key), params[key];
    match t
    case Last(lit) =>
      SkipText(lit, "", what, value);
      assert lit + "" == lit;
    case Open(lit, tail) =>
      OpenStays(lit, tail, key, value);
    case Hole(lit, name, rest) =>
      assert !rest.Last? ==> rest.lit in Readings(rest, params);
      ReplaceInHole(lit, name, rest, key, value);
      ReplaceIsSubstitute(rest, key, params);
      if name == key {
        RenderPrepend(lit + value, SubstituteSome(rest, {key}, params));
      }
  }

  /** The first literal stays, the first placeholder is replaced if it is the key's, and the scan goes on after it. */
  lemma ReplaceInHole(lit: string, name: string, rest: Template, key: string, value: string)
    requires NoCaret(lit) && NoCaret(name) && Plain(rest) && NoCaret(key) && (!rest.Last? ==> rest.lit != key)
    ensures ReplaceAll(lit + Placeholder(name) + Render(rest), Placeholder(key), value)
         == lit + (if name == key then value else Placeholder(name)) + ReplaceAll(Render(rest), Placeholder(key), value)
  {
    var what, r := Placeholder(key), Render(rest);
    assert lit + Placeholder(name) + r == lit + (Placeholder(name) + r);
    SkipText(lit, Placeholder(name) + r, what, value);
    if name == key {
      ReplaceHead(what, r, value);
    } else {
      SkipHole(name, rest, key, value);
    }
  }

  // ---------------------------------------------------------------- all parameters, in any order

  lemma {:induction false} SubstituteKeepsPlain(t: Template, names: set<string>, params: Params)
    requires names <= params.Keys && Plain(t) && PlainParams(params)
    ensures Plain(SubstituteSome(t, names, params))
  {
    if t.Hole? {
      SubstituteKeepsPlain(t.rest, names, params);
    }
  }

  lemma ReadingsPrepend(text: string, t: Template, params: Params)
    ensures Readings(Prepend(text, t), params) == set r | r in Readings(t, params) :: text + r
  {
    if t.Hole? && t.name in params {
      var v := params[t.name];
      forall r | r in Readings(t.rest, params) ensures text + t.lit + v + r == text + (t.lit + v + r) {
      }
    }
  }

  lemma {:induction false} SubstituteKeepsReadings(t: Template, names: set<string>, params: Params)
    requires names <= params.Keys
    ensures Readings(SubstituteSome(t, names, params), params) <= Readings(t, params)
  {
    if t.Hole? {
      SubstituteKeepsReadings(t.rest, names, params);
      if t.name in names {
        ReadingsPrepend(t.lit + params[t.name], SubstituteSome(t.rest, names, params), params);
      }
    }
  }

  lemma {:induction false} SubstituteKeepsClear(t: Template, names: set<string>, params: Params)
    requires names <= params.Keys && Clear(t, params)
    ensures Clear(SubstituteSome(t, names, params), params)
  {
    if t.Hole? {
      SubstituteKeepsClear(t.rest, names, params);
      SubstituteKeepsReadings(t.rest, names, params);
    }
  }

  lemma SubstitutePrepend(text: string, t: Template, names: set<string>, params: Params)
    requires names <= params.Keys
    ensures SubstituteSome(Prepend(text, t), names, params) == Prepend(text, SubstituteSome(t, names, params))
  {
    if t.Hole? && t.name in names {
      var rest := SubstituteSome(t.rest, names, params);
      assert (text + t.lit) + params[t.name] == text + (t.lit + params[t.name]);
      PrependTwice(text, t.lit + params[t.name], rest);
    }
  }

  lemma PrependTwice(a: string, b: string, t: Template)
    ensures Prepend(a, Prepend(b, t)) == Prepend(a + b, t)
  {
    assert a + (b + t.lit) == (a + b) + t.lit;
  }

  /** Replacing one more name after some others is replacing them all together. */
  lemma {:induction false} SubstituteOneMore(t: Template, names: set<string>, key: string, params: Params)
    requires names <= params.Keys && key in params
    ensures SubstituteSome(SubstituteSome(t, names, params), {key}, params)
         == SubstituteSome(t, names + {key}, params)
  {
    if t.Hole? {
      SubstituteOneMore(t.rest, names, key, params);
      if t.name in names {
        SubstitutePrepend(t.lit + params[t.name], SubstituteSome(t.rest, names, params), {key}, params);
      }
    }
  }

  function NamesOf(keys: seq<string>): set<string> {
    set k | k in keys && k != ""
  }

  /** After any number of rounds the text is that of the template with the names so far replaced. */
  lemma {:induction false} RoundsSubstitute(t: Template, keys: seq<string>, params: Params)
    requires Plain(t) && PlainParams(params) && Clear(t, params) && (forall k :: k in keys ==> k in params)
    ensures NamesOf(keys) <= params.Keys
    ensures ReplaceInOrder(Render(t), keys, params) == Render(SubstituteSome(t, NamesOf(keys), params))
  {
    if keys == [] {
      SubstituteNothing(t, params);
      assert NamesOf(keys) == {};
    } else {
      var before, last := keys[..|keys| - 1], keys[|keys| - 1];
      RoundsSubstitute(t, before, params);
      assert keys == before + [last];
      assert last in params;
      if last == "" {
        assert NamesOf(keys) == NamesOf(before);
      } else {
        assert NamesOf(keys) == NamesOf(before) + {last};
        var t' := SubstituteSome(t, NamesOf(before), params);
        SubstituteKeepsPlain(t, NamesOf(before), params);
        SubstituteKeepsClear(t, NamesOf(before), params);
        ReplaceIsSubstitute(t', last, params);
        SubstituteOneMore(t, NamesOf(before), last, params);
      }
    }
  }

  lemma {:induction false} SubstituteNothing(t: Template, params: Params)
    ensures SubstituteSome(t, {}, params) == t
  {
    if t.Hole? {
      SubstituteNothing(t.rest, params);
    }
  }

  /** In whatever order the parameters are visited, the outcome is the simultaneous substitution. */
  lemma OrderDoesNotMatter(t: Template, order: seq<string>, params: Params)
    requires Plain(t) && PlainParams(params) && Clear(t, params) && IsOrder(order, params)
    ensures ReplaceInOrder(Render(t), order, params) == Render(Substitute(t, params))
  {
    RoundsSubstitute(t, order, params);
    assert NamesOf(order) == params.Keys - {""};
  }

  lemma {:induction false} ContainsAfter(text: string, rest: string)
    ensures Contains(text + MARK + rest, MARK)
  {
    if text == "" {
      assert text + MARK + rest == MARK + rest;
    } else {
      ContainsAfter(text[1..], rest);
      assert (text + MARK + rest)[1..] == text[1..] + MARK + rest;
    }
  }

  lemma {:induction false} PlainHasNoMark(text: string)
    requires NoCaret(text)
    ensures !Contains(text, MARK)
  {
    assert MARK[0] == '^';
    if text != "" {
      assert text[0] != '^';
      PlainHasNoMark(text[1..]);
    }
  }

  /** The same with the early exit for text without a marker. */
  lemma InOrderDoesNotMatter(t: Template, order: seq<string>, params: Params)
    requires Plain(t) && PlainParams(params) && Clear(t, params) && IsOrder(order, params)
    ensures InOrder(Render(t), order, params) == Render(Substitute(t, params))
  {
    match t
    case Last(lit) =>
      PlainHasNoMark(lit);
    case Open(lit, tail) =>
      ContainsAfter(lit, tail);
      OrderDoesNotMatter(t, order, params);
    case Hole(lit, name, rest) =>
      assert Render(t) == lit + MARK + (name + MARK + Render(rest));
      ContainsAfter(lit, name + MARK + Render(rest));
      OrderDoesNotMatter(t, order, params);
  }

  /** A text with one placeholder. */
  lemma OnePlaceholder(lit: string, name: string, tail: string, order: seq<string>, params: Params)
    requires '^' !in lit + name + tail && name != "" && PlainParams(params) && IsOrder(order, params)
    ensures InOrder(lit + "^_^" + name + "^_^" + tail, order, params)
         == if name in params then lit + params[name] + tail else lit + "^_^" + name + "^_^" + tail
  {
    var text, t := lit + "^_^" + name + "^_^" + tail, Hole(lit, name, Last(tail));
    forall c | c in lit || c in name || c in tail ensures c in lit + name + tail {
    }
    assert Render(Last(tail)) == tail && Render(t) == text by {
      assert lit + ("^_^" + name + "^_^") + tail == text;
    }
    InOrderDoesNotMatter(t, order, params);
    assert SubstituteSome(Last(tail), params.Keys - {""}, params) == Last(tail);
  }

  /** A parameter without a name is skipped. */
  lemma {:induction false} NoNamesNoChange(text: string, keys: seq<string>, params: Params)
    requires params.Keys <= {""}
    ensures ReplaceInOrder(text, keys, params) == text
  {
    if keys != [] {
      NoNamesNoChange(text, keys[..|keys| - 1], params);
    }
  }

  /** The part stands somewhere in the text. */
  lemma {:induction false} ContainsIs(text: string, part: string)
    ensures Contains(text, part) <==> exists i :: 0 <= i <= |text| && part <= text[i..]
  {
    assert text[0..] == text;
    if text != "" {
      ContainsIs(text[1..], part);
      forall i | 0 <= i < |text| ensures text[1..][i..] == text[i + 1..] {
      }
      if i :| 0 < i <= |text| && part <= text[i..] {
        assert part <= text[1..][i - 1..];
      }
      if i :| 0 <= i <= |text[1..]| && part <= text[1..][i..] {
        assert part <= text[i + 1..];
      }
    }
  }

  /** The leftmost occurrence gives way to the value, and the scan goes on behind it. */
  lemma {:induction false} ReplaceLeftmost(before: string, what: string, after: string, value: string)
    requires what != "" && forall i :: 0 <= i < |before| ==> !(what <= (before + what + after)[i..])
    ensures ReplaceAll(before + what + after, what, value) == before + value + ReplaceAll(after, what, value)
  {
    var text := before + what + after;
    if before == "" {
      assert text == what + after;
      ReplaceHead(what, after, value);
    } else {
      var rest := before[1..] + what + after;
      assert text[0..] == text && text[1..] == rest && text[0] == before[0];
      forall i | 0 <= i < |before[1..]| ensures !(what <= rest[i..]) {
        assert rest[i..] == text[i + 1..];
      }
      ReplaceLeftmost(before[1..], what, after, value);
      assert [before[0]] + (before[1..] + value + ReplaceAll(after, what, value)) == before + value + ReplaceAll(after, what, value);
    }
  }

  // ---------------------------------------------------------------- a condition on the literals alone

  /** The text holds a character that occurs in no key. */
  predicate Guards(text: string, keys: set<string>) {
    exists i :: 0 <= i < |text| && FreeOf(text[i], keys)
  }

  predicate FreeOf(c: char, keys: set<string>) {
    forall k :: k in keys ==> c !in k
  }

  /** Every literal between a placeholder and a later marker holds a character that occurs in no key. */
  predicate Guarded(t: Template, keys: set<string>) {
    match t
    case Hole(_, _, rest) => (!rest.Last? ==> Guards(rest.lit, keys)) && Guarded(rest, keys)
    case _ => true
  }

  lemma GuardsWider(a: string, text: string, b: string, keys: set<string>)
    requires Guards(text, keys)
    ensures Guards(a + text + b, keys)
  {
    var i :| 0 <= i < |text| && FreeOf(text[i], keys);
    assert (a + text + b)[|a| + i] == text[i];
  }

  lemma GuardsIsNoKey(text: string, keys: set<string>)
    requires Guards(text, keys)
    ensures text !in keys
  {
  }

  lemma {:induction false} ReadingsAreGuarded(t: Template, params: Params, keys: set<string>, r: string)
    requires Guards(t.lit, keys) && r in Readings(t, params)
    ensures Guards(r, keys)
  {
    if r != t.lit {
      var r' :| r' in Readings(t.rest, params) && r == t.lit + params[t.name] + r';
      GuardsWider("", t.lit, params[t.name] + r', keys);
      assert "" + t.lit + (params[t.name] + r') == r;
    }
  }

  lemma {:induction false} GuardedIsClear(t: Template, params: Params, keys: set<string>)
    requires Guarded(t, keys) && params.Keys <= keys
    ensures Clear(t, params)
  {
    if t.Hole? {
      GuardedIsClear(t.rest, params, keys);
      forall r | r in Readings(t.rest, params) ensures r !in params {
        ReadingsAreGuarded(t.rest, params, keys, r);
        GuardsIsNoKey(r, keys);
      }
    }
  }

  lemma {:induction false} SubstituteKeepsGuarded(t: Template, names: set<string>, params: Params, keys: set<string>)
    requires names <= params.Keys && Guarded(t, keys)
    ensures Guarded(SubstituteSome(t, names, params), keys)
    ensures Guards(t.lit, keys) ==> Guards(SubstituteSome(t, names, params).lit, keys)
  {
    if t.Hole? {
      SubstituteKeepsGuarded(t.rest, names, params, keys);
      if t.name in names && Guards(t.lit, keys) {
        var rest := SubstituteSome(t.rest, names, params);
        GuardsWider("", t.lit, params[t.name] + rest.lit, keys);
        assert "" + t.lit + (params[t.name] + rest.lit) == t.lit + params[t.name] + rest.lit;
      }
    }
  }

  /** With guarded literals no order matters: the statement on the literals and keys alone. */
  lemma GuardedOrderDoesNotMatter(t: Template, order: seq<string>, params: Params)
    requires Plain(t) && PlainParams(params) && Guarded(t, params.Keys) && IsOrder(order, params)
    ensures ReplaceInOrder(Render(t), order, params) == Render(Substitute(t, params))
  {
    GuardedIsClear(t, params, params.Keys);
    OrderDoesNotMatter(t, order, params);
  }

  // ---------------------------------------------------------------- where the order does matter

  lemma {:induction false} ShortStays(text: string, what: string, value: string)
    requires |text| < |what|
    ensures ReplaceAll(text, what, value) == text
  {
    if text != "" {
      ShortStays(text[1..], what, value);
    }
  }

  lemma EndsInMark(text: string, key: string, value: string)
    requires NoCaret(text) && key != ""
    ensures ReplaceAll(text + MARK, Placeholder(key), value) == text + MARK
  {
    SkipText(text, MARK, Placeholder(key), value);
    ShortStays(MARK, Placeholder(key), value);
  }

  /** The second name read first: it takes the markers on both its sides. */
  lemma SecondNameFirst(a: string, b: string, y: string)
    requires NoCaret(a) && NoCaret(b) && a != b
    ensures ReplaceAll(Placeholder(a) + b + MARK, Placeholder(b), y) == MARK + a + y
  {
    var what := Placeholder(b);
    assert Placeholder(a) + b + MARK == Placeholder(a) + (b + MARK) && MARK + (b + MARK) == what + "";
    SkipOpening(a, b + MARK, b, y);
    ReplaceHead(what, "", y);
    assert y + "" == y;
  }

  /** Where a literal is itself a key the order decides: "^_^a^_^b^_^" has two readings. */
  lemma OrderMatters(a: string, b: string, x: string, y: string)
    requires NoCaret(a) && NoCaret(b) && NoCaret(x) && NoCaret(y) && a != "" && b != "" && a != b
    ensures var params := map[a := x, b := y]; var text := Render(Hole("", a, Open(b, "")));
      && IsOrder([a, b], params) && IsOrder([b, a], params)
      && ReplaceInOrder(text, [a, b], params) != ReplaceInOrder(text, [b, a], params)
  {
    var params := map[a := x, b := y];
    ThreeMarkers(a, b);
    FirstThenSecond(a, b, x, y);
    SecondThenFirst(a, b, x, y);
    assert forall k :: k in [a, b] <==> k in params.Keys;
    assert forall k :: k in [b, a] <==> k in params.Keys;
  }

  lemma ThreeMarkers(a: string, b: string)
    ensures Render(Hole("", a, Open(b, ""))) == Placeholder(a) + b + MARK
  {
    assert Render(Open(b, "")) == b + MARK + "" == b + MARK;
    assert "" + Placeholder(a) + (b + MARK) == Placeholder(a) + b + MARK;
  }

  lemma InTwo(text: string, a: string, b: string, params: Params)
    requires a in params && b in params && a != "" && b != ""
    ensures ReplaceInOrder(text, [a, b], params)
         == ReplaceAll(ReplaceAll(text, Placeholder(a), params[a]), Placeholder(b), params[b])
  {
    assert [a, b][..1] == [a] && [a][..0] == [];
    assert ReplaceInOrder(text, [], params) == text;
    assert ReplaceInOrder(text, [a], params) == ReplaceAll(text, Placeholder(a), params[a]);
  }

  lemma FirstThenSecond(a: string, b: string, x: string, y: string)
    requires NoCaret(a) && NoCaret(b) && NoCaret(x) && a != "" && b != "" && a != b
    ensures var r := ReplaceInOrder(Placeholder(a) + b + MARK, [a, b], map[a := x, b := y]); r != "" && r[0] != '^'
  {
    InTwo(Placeholder(a) + b + MARK, a, b, map[a := x, b := y]);
    FirstNameFirst(a, b, x);
    EndsInMark(x + b, b, y);
    assert ((x + b) + MARK)[0] == (x + b)[0];
  }

  lemma FirstNameFirst(a: string, b: string, x: string)
    requires NoCaret(b) && a != ""
    ensures ReplaceAll(Placeholder(a) + b + MARK, Placeholder(a), x) == (x + b) + MARK
  {
    assert Placeholder(a) + b + MARK == Placeholder(a) + (b + MARK);
    ReplaceHead(Placeholder(a), b + MARK, x);
    EndsInMark(b, a, x);
    assert x + (b + MARK) == (x + b) + MARK;
  }

  lemma SecondThenFirst(a: string, b: string, x: string, y: string)
    requires NoCaret(a) && NoCaret(b) && NoCaret(y) && a != "" && b != "" && a != b
    ensures var r := ReplaceInOrder(Placeholder(a) + b + MARK, [b, a], map[a := x, b := y]); r != "" && r[0] == '^'
  {
    InTwo(Placeholder(a) + b + MARK, b, a, map[a := x, b := y]);
    SecondNameFirst(a, b, y);
    StaysOpen(a, x, y);
  }

  lemma StaysOpen(a: string, x: string, y: string)
    requires NoCaret(y)
    ensures var r := ReplaceAll(MARK + a + y, Placeholder(a), x); r != "" && r[0] == '^'
  {
    PrefixOfSum(MARK + a, MARK, y);
    assert MARK == "" + "^" + "_^";
    CaretNeeded("", "_^", y);
  }
}
