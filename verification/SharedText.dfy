/**
 When does a text that a metric shares with its clones come out the same in every execution?  The exact
 condition is given twice: for a single parameter with any value whatever, and for any number of
 parameters whose values are themselves templates.
 */
module SharedText {
  import opened Collections
  import opened JobParams
  import opened Nesting
  import opened Resolution
  import opened Substitution

  predicate HasField(v: View, field: string) {
    v.jdbc.Some? && field in v.jdbc.value
  }

  /** The text of a field of the shared JDBC struct. */
  function Field(v: View, field: string): string
    requires HasField(v, field)
  {
    v.jdbc.value[field]
  }

  // ---------------------------------------------------------------- one replacement, over and over

  lemma {:induction false} AbsentStays(text: string, what: string, value: string)
    requires what != "" && !Contains(text, what)
    ensures ReplaceAll(text, what, value) == text
  {
    if text != "" {
      AbsentStays(text[1..], what, value);
    }
  }

  lemma {:induction false} NoMarkNoPlaceholder(text: string, name: string)
    requires !Contains(text, MARK)
    ensures !Contains(text, Placeholder(name))
  {
    assert MARK <= Placeholder(name);
    if text != "" {
      NoMarkNoPlaceholder(text[1..], name);
    }
  }

  /** A value at least as long as the placeholder never shortens the text, and a longer one lengthens it. */
  lemma {:induction false} Lengthens(text: string, what: string, value: string)
    requires what != "" && |value| >= |what|
    ensures |ReplaceAll(text, what, value)| >= |text|
    ensures |value| > |what| && Contains(text, what) ==> |ReplaceAll(text, what, value)| > |text|
  {
    if text != "" {
      if what <= text {
        Lengthens(text[|what|..], what, value);
      } else {
        Lengthens(text[1..], what, value);
      }
    }
  }

  lemma {:induction false} ContainsMore(text: string, more: string, part: string)
    requires Contains(text, part)
    ensures Contains(text + more, part)
  {
    if !(part <= text) {
      ContainsMore(text[1..], more, part);
      assert (text + more)[1..] == text[1..] + more;
    }
  }

  /** A value that holds the placeholder puts it back. */
  lemma {:induction false} PutsBack(text: string, what: string, value: string)
    requires what != "" && Contains(value, what) && Contains(text, what)
    ensures Contains(ReplaceAll(text, what, value), what)
  {
    if what <= text {
      ContainsMore(value, ReplaceAll(text[|what|..], what, value), what);
    } else {
      PutsBack(text[1..], what, value);
      var rest := ReplaceAll(text[1..], what, value);
      assert ([text[0]] + rest)[1..] == rest;
    }
  }

  lemma {:induction false} ContainsIsNoLonger(text: string, part: string)
    requires Contains(text, part)
    ensures |part| <= |text| && (|part| == |text| ==> part == text)
  {
    if !(part <= text) {
      ContainsIsNoLonger(text[1..], part);
    }
  }

  /** Text without carets before or behind makes no new occurrence of a placeholder. */
  lemma {:induction false} ContainsBehind(lit: string, text: string, name: string)
    requires NoCaret(lit)
    ensures Contains(lit + text, Placeholder(name)) == Contains(text, Placeholder(name))
  {
    if lit == "" {
      assert lit + text == text;
    } else {
      ContainsBehind(lit[1..], text, name);
      assert (lit + text)[1..] == lit[1..] + text && (lit + text)[0] != '^' && Placeholder(name)[0] == '^';
    }
  }

  lemma {:induction false} ContainsBefore(text: string, tail: string, name: string)
    requires NoCaret(tail)
    ensures Contains(text + tail, Placeholder(name)) == Contains(text, Placeholder(name))
  {
    var what := Placeholder(name);
    assert what[|what| - 1] == '^';
    assert what <= text + tail <==> what <= text;
    if text == "" {
      PlainHasNoMark(tail);
      NoMarkNoPlaceholder(tail, name);
      assert text + tail == tail;
    } else {
      ContainsBefore(text[1..], tail, name);
      assert (text + tail)[1..] == text[1..] + tail;
    }
  }

  // ---------------------------------------------------------------- a single parameter, with any value

  lemma OneParameter(text: string, name: string, value: string, out: string)
    requires name != "" && Outcome(text, map[name := value], out)
    ensures out == ReplaceAll(text, Placeholder(name), value)
  {
    var params := map[name := value];
    var order :| IsOrder(order, params) && out == InOrder(text, order, params);
    SingleOrder(order, name, value);
    assert ReplaceInOrder(text, order[..0], params) == text;
    if !Contains(text, MARK) {
      NoMarkNoPlaceholder(text, name);
      AbsentStays(text, Placeholder(name), value);
    }
  }

  function OneEntry(name: string, value: string): seq<ConfigEntry> {
    [ConfigEntry(name, value, value)]
  }

  function Twice(text: string, name: string, value: string): string {
    ReplaceAll(ReplaceAll(text, Placeholder(name), value), Placeholder(name), value)
  }

  /** An execution replaces the one parameter twice in each field of the shared struct. */
  lemma ExecutionReplacesTwice(v: View, mid: View, out: View, field: string, name: string, value: string)
    requires ExecutionOutcome(v, OneEntry(name, value), mid, out) && v.configMap == None && HasField(v, field) && name != ""
    ensures HasField(out, field) && Field(out, field) == Twice(Field(v, field), name, value)
  {
    var config := OneEntry(name, value);
    assert SimpleMap(config[..0]) == Merged(map[], config[..0]) == map[];
    assert SimpleMap(config) == Merged(map[], config) == map[name := value];
    OneParameter(Field(v, field), name, value, Field(mid, field));
    OneParameter(Field(mid, field), name, value, Field(out, field));
  }

  lemma HistoryReplacesTwice(h: seq<Execution>, field: string, name: string, value: string, n: nat)
    requires IsHistory(h, Outcomes(OneEntry(name, value))) && n < |h| && name != ""
    requires h[n].before.configMap == None && HasField(h[n].before, field)
    ensures HasField(h[n].out, field) && Field(h[n].out, field) == Twice(Field(h[n].before, field), name, value)
    ensures n + 1 < |h| ==> && h[n + 1].before.configMap == None && HasField(h[n + 1].before, field)
                            && Field(h[n + 1].before, field) == Field(h[n].out, field)
  {
    assert Outcomes(OneEntry(name, value))(h[n]);
    ExecutionReplacesTwice(h[n].before, h[n].mid, h[n].out, field, name, value);
    if n + 1 < |h| {
      assert h[n + 1].before == AfterExecution(h[n + 1 - 1].before, h[n + 1 - 1].out);
    }
  }

  /** The value brings its own placeholder back and something more. */
  predicate Regrows(name: string, value: string) {
    Contains(value, Placeholder(name)) && value != Placeholder(name)
  }

  lemma TwiceLengthens(text: string, name: string, value: string)
    requires Regrows(name, value) && Contains(text, Placeholder(name))
    ensures |Twice(text, name, value)| > |text| && Contains(Twice(text, name, value), Placeholder(name))
  {
    var what := Placeholder(name);
    ContainsIsNoLonger(value, what);
    Lengthens(text, what, value);
    PutsBack(text, what, value);
    Lengthens(ReplaceAll(text, what, value), what, value);
    PutsBack(ReplaceAll(text, what, value), what, value);
  }

  /** The first replacement puts the value in place, and the second finds the placeholder only inside it. */
  lemma TwiceSettles(lit: string, name: string, value: string, tail: string)
    requires NoCaret(lit) && NoCaret(tail) && !Contains(value, Placeholder(name))
    ensures Twice(lit + Placeholder(name) + tail, name, value) == lit + value + tail
    ensures Twice(lit + value + tail, name, value) == lit + value + tail
  {
    var what := Placeholder(name);
    assert lit + what + tail == lit + (what + tail) && lit + value + tail == lit + (value + tail) && tail + "" == tail;
    SkipText(lit, what + tail, what, value);
    ReplaceHead(what, tail, value);
    SkipText(tail, "", what, value);
    ContainsBehind(lit, value + tail, name);
    ContainsBefore(value, tail, name);
    AbsentStays(lit + value + tail, what, value);
  }

  /** The metric has no map of its own, and one placeholder in a field of its JDBC struct. */
  predicate Pending(v: View, field: string, lit: string, name: string, tail: string) {
    v.configMap == None && HasField(v, field) && Field(v, field) == lit + Placeholder(name) + tail
  }

  /** In the executions of a history the text grows, or it has its final form from the first one on. */
  lemma {:induction false} FieldHistory(h: seq<Execution>, field: string, lit: string, name: string, value: string,
                                        tail: string, n: nat)
    requires IsHistory(h, Outcomes(OneEntry(name, value))) && n < |h| && name != ""
    requires NoCaret(lit) && NoCaret(tail) && Pending(h[0].before, field, lit, name, tail)
    ensures h[n].before.configMap == None && HasField(h[n].before, field) && HasField(h[n].out, field)
    ensures n > 0 ==> HasField(h[n - 1].out, field) && Field(h[n].before, field) == Field(h[n - 1].out, field)
    ensures Regrows(name, value) ==> Contains(Field(h[n].out, field), Placeholder(name))
                                     && |Field(h[n].out, field)| > |Field(h[n].before, field)|
    ensures !Regrows(name, value) ==> Field(h[n].out, field) == lit + value + tail
  {
    var text, what := lit + Placeholder(name) + tail, Placeholder(name);
    if n > 0 {
      FieldHistory(h, field, lit, name, value, tail, n - 1);
      HistoryReplacesTwice(h, field, name, value, n - 1);
    }
    HistoryReplacesTwice(h, field, name, value, n);
    if Regrows(name, value) {
      HoleIsThere(lit, name, tail);
      TwiceLengthens(Field(h[n].before, field), name, value);
    } else if value == what {
      ReplaceByItself(text, what);
    } else {
      TwiceSettles(lit, name, value, tail);
    }
  }

  lemma HoleIsThere(lit: string, name: string, tail: string)
    requires NoCaret(lit)
    ensures Contains(lit + Placeholder(name) + tail, Placeholder(name))
  {
    assert lit + Placeholder(name) + tail == lit + (Placeholder(name) + tail);
    ContainsBehind(lit, Placeholder(name) + tail, name);
  }

  lemma {:induction false} KeepsGrowing(h: seq<Execution>, field: string, lit: string, name: string, value: string,
                                        tail: string, m: nat, n: nat)
    requires IsHistory(h, Outcomes(OneEntry(name, value))) && m < n < |h| && name != ""
    requires NoCaret(lit) && NoCaret(tail) && Pending(h[0].before, field, lit, name, tail) && Regrows(name, value)
    ensures HasField(h[m].out, field) && HasField(h[n].out, field)
    ensures |Field(h[n].out, field)| > |Field(h[m].out, field)|
    decreases n
  {
    FieldHistory(h, field, lit, name, value, tail, n);
    if m < n - 1 {
      KeepsGrowing(h, field, lit, name, value, tail, m, n - 1);
    }
  }

  /** Two executions leave the same text if and only if the value is the placeholder itself or does not
      contain it; otherwise the text grows without end. */
  lemma OneParameterSettlesIff(h: seq<Execution>, field: string, lit: string, name: string, value: string, tail: string,
                               m: nat, n: nat)
    requires IsHistory(h, Outcomes(OneEntry(name, value))) && m < n < |h| && name != ""
    requires NoCaret(lit) && NoCaret(tail) && Pending(h[0].before, field, lit, name, tail)
    ensures HasField(h[m].out, field) && HasField(h[n].out, field)
    ensures Field(h[n].out, field) == Field(h[m].out, field)
       <==> value == Placeholder(name) || !Contains(value, Placeholder(name))
  {
    FieldHistory(h, field, lit, name, value, tail, m);
    FieldHistory(h, field, lit, name, value, tail, n);
    if Regrows(name, value) {
      KeepsGrowing(h, field, lit, name, value, tail, m, n);
    }
  }

  // ---------------------------------------------------------------- values that name other parameters

  /** Where two passes settle the text, every execution leaves the same one. */
  lemma {:induction false} SettledHistory(h: seq<Execution>, config: seq<ConfigEntry>, field: string, keys: set<string>, n: nat)
    requires IsHistory(h, Outcomes(config)) && n < |h| && h[0].before.configMap == None && HasField(h[0].before, field)
    requires Settles(Field(h[0].before, field), SimpleMap(config), Configured(config), keys)
    ensures h[n].before.configMap == None && HasField(h[n].before, field) && HasField(h[n].out, field)
    ensures Settles(Field(h[n].before, field), SimpleMap(config), Configured(config), keys)
    ensures Field(h[n].out, field) == End(Field(h[0].before, field), SimpleMap(config), Configured(config))
  {
    var first, own := SimpleMap(config), Configured(config);
    EndStays(Field(h[0].before, field), first, own, keys);
    if n > 0 {
      SettledHistory(h, config, field, keys, n - 1);
      assert h[n].before == AfterExecution(h[n - 1].before, h[n - 1].out);
    }
    assert Outcomes(config)(h[n]);
    SettlesAtEnd(Field(h[n].before, field), first, own, keys, Field(h[n].mid, field), Field(h[n].out, field));
  }

  lemma SomeTexts(texts: Params, params: Params)
    ensures TextsOutcome(texts, params, ResolveTexts(texts, params))
  {
    forall k | k in texts ensures Outcome(texts[k], params, Resolved(texts[k], params)) {
      ResolvedIsOutcome(texts[k], params);
    }
  }

  lemma SomeEntries(entries: Option<Params>, params: Params)
    ensures OptEntries(entries, params, OptResolveEntries(entries, params))
  {
    if entries.Some? {
      ResolvedEntriesIsOutcome(entries.value, params);
    }
  }

  lemma SomeOptTexts(texts: Option<Params>, params: Params)
    ensures OptTexts(texts, params, OptResolve(texts, params))
  {
    if texts.Some? {
      SomeTexts(texts.value, params);
    }
  }

  lemma SomeHttp(h: HttpView, params: Params)
    ensures HttpOutcome(h, params, ResolveHttp(h, params))
  {
    SomeTexts(h.texts, params);
    SomeEntries(h.headers, params);
    SomeEntries(h.query, params);
    SomeOptTexts(h.auth, params);
  }

  /** Some pass makes the given outcome of the field, whatever it makes of the rest. */
  lemma SomePass(v: View, params: Params, field: string, text: string) returns (out: View)
    requires HasField(v, field) && Outcome(Field(v, field), params, text)
    ensures PassOutcome(v, params, out) && HasField(out, field) && Field(out, field) == text && out.configMap == v.configMap
  {
    var r := ResolvePass(v, params);
    SomeTexts(v.texts, params);
    SomeOptTexts(v.jdbc, params);
    SomeOptTexts(v.ssh, params);
    SomeOptTexts(v.redis, params);
    if v.http.Some? {
      SomeHttp(v.http.value, params);
    }
    out := r.(jdbc := Some(r.jdbc.value[field := text]));
  }

  lemma SomeExecution(v: View, config: seq<ConfigEntry>, field: string, mid: string, out: string) returns (e: Execution)
    requires v.configMap == None && HasField(v, field)
    requires Outcome(Field(v, field), SimpleMap(config), mid) && Outcome(mid, Configured(config), out)
    ensures Outcomes(config)(e) && e.before == v && HasField(e.out, field) && Field(e.out, field) == out
  {
    var v1 := SomePass(v, SimpleMap(config), field, mid);
    var v2 := SomePass(v1, Configured(config), field, out);
    var own := SomeSelfOutcome(Configured(config));
    e := Execution(v, v1, v2.(configMap := Some(own)));
  }

  /** Whatever the map orders, every execution leaves the same text in the field. */
  ghost predicate AlwaysSame(v: View, possible: Execution -> bool, field: string) {
    forall h: seq<Execution>, n: nat :: IsHistory(h, possible) && n < |h| && h[0].before == v ==> SameField(h[n].out, h[0].out, field)
  }

  predicate SameField(v: View, w: View, field: string) {
    HasField(v, field) && HasField(w, field) && Field(v, field) == Field(w, field)
  }

  lemma ShallowAlwaysSame(v: View, config: seq<ConfigEntry>, field: string, keys: set<string>)
    requires v.configMap == None && HasField(v, field)
    requires Settles(Field(v, field), SimpleMap(config), Configured(config), keys)
    ensures AlwaysSame(v, Outcomes(config), field)
  {
    forall h: seq<Execution>, n: nat | IsHistory(h, Outcomes(config)) && n < |h| && h[0].before == v
      ensures SameField(h[n].out, h[0].out, field)
    {
      SettledHistory(h, config, field, keys, n);
      SettledHistory(h, config, field, keys, 0);
    }
  }

  lemma TwoExecutionsDiffer(v: View, config: seq<ConfigEntry>, field: string,
                            mid: string, out: string, mid': string, out': string)
    requires v.configMap == None && HasField(v, field) && out != out'
    requires Outcome(Field(v, field), SimpleMap(config), mid) && Outcome(mid, Configured(config), out)
    requires Outcome(out, SimpleMap(config), mid') && Outcome(mid', Configured(config), out')
    ensures !AlwaysSame(v, Outcomes(config), field)
  {
    var e := SomeExecution(v, config, field, mid, out);
    var e' := SomeExecution(AfterExecution(v, e.out), config, field, mid', out');
    TwoInARow(e, e', Outcomes(config), field);
  }

  lemma TwoInARow(e: Execution, e': Execution, possible: Execution -> bool, field: string)
    requires possible(e) && possible(e') && e'.before == AfterExecution(e.before, e.out)
    requires !SameField(e'.out, e.out, field)
    ensures !AlwaysSame(e.before, possible, field)
  {
    var h := [e, e'];
    assert IsHistory(h, possible) && !SameField(h[1].out, h[0].out, field);
  }

  /** Every execution leaves the same text, in whatever order the parameters are visited, if and only if no
      chain of names is longer than two: a parameter that the text names may name others, but these no more. */
  lemma EveryExecutionSameIff(v: View, config: seq<ConfigEntry>, field: string, t: Template, vals: Values, keys: set<string>)
    requires v.configMap == None && HasField(v, field) && SimpleMap(config) == Configured(config)
    requires Reads(t, Field(v, field), vals, SimpleMap(config), keys)
    ensures AlwaysSame(v, Outcomes(config), field) <==> Shallow(t, vals, vals)
  {
    var params := SimpleMap(config);
    if Shallow(t, vals, vals) {
      assert ReadsBoth(t, Field(v, field), vals, params, vals, params, keys);
      ShallowAlwaysSame(v, config, field, keys);
    } else {
      var mid, out, mid', out' := DeepMayChange(t, Field(v, field), vals, params, keys);
      TwoExecutionsDiffer(v, config, field, mid, out, mid', out');
    }
  }

  // ---------------------------------------------------------------- three levels

  /** A parameter that names a second one, which names a third. */
  function Chain(x: string, y: string, z: string, a: string, b: string, c: string): Params {
    map[x := a + Placeholder(y), y := b + Placeholder(z), z := c]
  }

  function EndsIn(lit: string, name: string): Value {
    assert Closed(Last(""));
    Hole(lit, name, Last(""))
  }

  function ChainValues(x: string, y: string, z: string, a: string, b: string, c: string): Values {
    map[x := EndsIn(a, y), y := EndsIn(b, z), z := Last(c)]
  }

  predicate IsChain(x: string, y: string, z: string, a: string, b: string, c: string) {
    && NoCaret(x) && NoCaret(y) && NoCaret(z) && NoCaret(a) && NoCaret(b) && NoCaret(c)
    && x != "" && y != "" && z != "" && x != y && x != z && y != z
  }

  lemma EndsInText(lit: string, name: string)
    ensures Render(EndsIn(lit, name)) == lit + Placeholder(name) && Names(EndsIn(lit, name)) == {name}
  {
    assert Render(Last("")) == "" && Names(Last("")) == {} && lit + Placeholder(name) + "" == lit + Placeholder(name);
  }

  lemma FillEnd(lit: string, name: string, key: string, v: Value)
    ensures Fill(EndsIn(lit, name), map[key := v]) == if name == key then Prepend(lit, v) else EndsIn(lit, name)
  {
    if name == key {
      assert Fill(Last(""), map[key := v]) == Last("");
      ConcatNothing(v);
    } else {
      EndsInText(lit, name);
      FillNothing(EndsIn(lit, name), map[key := v]);
    }
  }

  lemma ChainReads(lit: string, name: string, x: string, y: string, z: string, a: string, b: string, c: string)
    requires IsChain(x, y, z, a, b, c) && NoCaret(lit) && name in {x, y, z}
    ensures Reads(EndsIn(lit, name), lit + Placeholder(name), ChainValues(x, y, z, a, b, c), Chain(x, y, z, a, b, c), {x, y, z})
  {
    EndsInText(lit, name);
    EndsInTidy(lit, name, {x, y, z});
    ChainValued(x, y, z, a, b, c);
  }

  lemma EndsInTidy(lit: string, name: string, keys: set<string>)
    requires NoCaret(lit) && NoCaret(name)
    ensures Tidy(EndsIn(lit, name), keys)
  {
    assert Plain(Last("")) && Guarded(Last(""), keys);
  }

  lemma ChainValued(x: string, y: string, z: string, a: string, b: string, c: string)
    requires IsChain(x, y, z, a, b, c)
    ensures var vals, params := ChainValues(x, y, z, a, b, c), Chain(x, y, z, a, b, c);
      Valued(vals, params, {x, y, z}) && vals.Keys == params.Keys == {x, y, z}
  {
    EndsInText(a, y);
    EndsInText(b, z);
    EndsInTidy(a, y, {x, y, z});
    EndsInTidy(b, z, {x, y, z});
  }

  lemma GraftThree(t: Template, p: string, q: string, r: string, vals: Values)
    requires p in vals && q in vals && r in vals
    ensures Graft(t, [p, q, r], vals) == Fill(Fill(Fill(t, map[p := vals[p]]), map[q := vals[q]]), map[r := vals[r]])
  {
    assert [p, q, r][..2] == [p, q] && [p, q][..1] == [p] && [p][..0] == [];
    assert Graft(t, [], vals) == t;
    assert Graft(t, [p], vals) == Fill(t, map[p := vals[p]]);
    assert Graft(t, [p, q], vals) == Fill(Graft(t, [p], vals), map[q := vals[q]]);
  }

  /** One pass over a text that ends in a placeholder, with the parameters visited in the given order. */
  lemma ChainPass(lit: string, name: string, x: string, y: string, z: string, a: string, b: string, c: string,
                  order: seq<string>)
    requires IsChain(x, y, z, a, b, c) && NoCaret(lit) && name in {x, y, z} && (order == [x, y, z] || order == [z, y, x])
    ensures var vals := ChainValues(x, y, z, a, b, c);
      Outcome(lit + Placeholder(name), Chain(x, y, z, a, b, c), Render(Graft(EndsIn(lit, name), order, vals)))
  {
    var vals, params := ChainValues(x, y, z, a, b, c), Chain(x, y, z, a, b, c);
    ChainReads(lit, name, x, y, z, a, b, c);
    assert params.Keys == {x, y, z} && IsOrder(order, params);
    PassIsGraft(EndsIn(lit, name), order, vals, params, {x, y, z});
  }

  /** Visited from the last level up, each pass resolves one level only. */
  lemma BottomUp(lit: string, x: string, y: string, z: string, a: string, b: string, c: string)
    requires IsChain(x, y, z, a, b, c) && NoCaret(lit)
    ensures var params := Chain(x, y, z, a, b, c);
      && Outcome(lit + Placeholder(x), params, lit + a + Placeholder(y))
      && Outcome(lit + Placeholder(y), params, lit + b + Placeholder(z))
      && Outcome(lit + Placeholder(z), params, lit + c)
  {
    var vals, order := ChainValues(x, y, z, a, b, c), [z, y, x];
    ChainPass(lit, x, x, y, z, a, b, c, order);
    ChainPass(lit, y, x, y, z, a, b, c, order);
    ChainPass(lit, z, x, y, z, a, b, c, order);
    GraftThree(EndsIn(lit, x), z, y, x, vals);
    GraftThree(EndsIn(lit, y), z, y, x, vals);
    GraftThree(EndsIn(lit, z), z, y, x, vals);
    FillEnd(lit, x, z, vals[z]);
    FillEnd(lit, x, y, vals[y]);
    FillEnd(lit, x, x, vals[x]);
    FillEnd(lit, y, z, vals[z]);
    FillEnd(lit, y, y, vals[y]);
    FillEnd(lit + b, z, x, vals[x]);
    FillEnd(lit, z, z, vals[z]);
    EndsInText(lit + a, y);
    EndsInText(lit + b, z);
  }

  /** Visited from the first level down, one pass resolves all of them. */
  lemma TopDown(lit: string, x: string, y: string, z: string, a: string, b: string, c: string)
    requires IsChain(x, y, z, a, b, c) && NoCaret(lit)
    ensures Outcome(lit + Placeholder(x), Chain(x, y, z, a, b, c), lit + a + b + c)
  {
    var vals := ChainValues(x, y, z, a, b, c);
    ChainPass(lit, x, x, y, z, a, b, c, [x, y, z]);
    GraftThree(EndsIn(lit, x), x, y, z, vals);
    FillEnd(lit, x, x, vals[x]);
    FillEnd(lit + a, y, y, vals[y]);
    FillEnd(lit + a + b, z, z, vals[z]);
  }

  /** No value names itself, and yet the first execution may leave the third level in the text and the second
      one resolve it; or the first execution resolves everything.  It depends on the order. */
  lemma ThirdLevelDependsOnOrder(x: string, y: string, z: string, a: string, b: string, c: string)
    requires IsChain(x, y, z, a, b, c)
    ensures var params := Chain(x, y, z, a, b, c);
      && Outcome(Placeholder(x), params, a + Placeholder(y)) && Outcome(a + Placeholder(y), params, a + b + Placeholder(z))
      && Outcome(a + b + Placeholder(z), params, a + b + c) && Outcome(a + b + c, params, a + b + c)
      && Outcome(Placeholder(x), params, a + b + c) && a + b + Placeholder(z) != a + b + c
  {
    var params := Chain(x, y, z, a, b, c);
    BottomUp("", x, y, z, a, b, c);
    BottomUp(a, x, y, z, a, b, c);
    BottomUp(a + b, x, y, z, a, b, c);
    TopDown("", x, y, z, a, b, c);
    assert "" + Placeholder(x) == Placeholder(x) && "" + a == a;
    PlainHasNoMark(a + b + c);
    var order := AnyOrder(params);
    assert InOrder(a + b + c, order, params) == a + b + c;
    assert (a + b + Placeholder(z))[|a + b|] == '^';
  }
}
