/** Resolving the texts of a job once or several times. */
module Resolution {
  import opened Substitution
  import opened Nesting

  // ---------------------------------------------------------------- one text

  /** The outcome of replacement in some order. */
  ghost function Resolved(text: string, params: Params): string {
    if exists order :: IsOrder(order, params) then
      var order :| IsOrder(order, params);
      InOrder(text, order, params)
    else text
  }

  lemma ResolvedIsOutcome(text: string, params: Params)
    ensures Outcome(text, params, Resolved(text, params))
  {
    var some := AnyOrder(params);
  }

  lemma SomeOutcome(text: string, params: Params) returns (out: string)
    ensures Outcome(text, params, out)
  {
    var order := AnyOrder(params);
    out := InOrder(text, order, params);
  }

  /** A text that one pass resolves completely has one outcome. */
  lemma DirectIsResolved(text: string, params: Params, keys: set<string>, out: string)
    requires Direct(text, params, keys) && Outcome(text, params, out)
    ensures out == Resolved(text, params)
  {
    var t, vals :| Reads(t, text, vals, params, keys) && Flat(t, vals);
    DirectOutcome(t, text, vals, params, keys, out);
    ResolvedIsOutcome(text, params);
    DirectOutcome(t, text, vals, params, keys, Resolved(text, params));
  }

  /** With values that hold no caret every readable text is of that kind. */
  lemma PlainIsDirect(t: Template, params: Params, keys: set<string>)
    requires Tidy(t, keys) && params.Keys <= keys && PlainParams(params)
    ensures Direct(Render(t), params, keys)
  {
    var vals := PlainValues(params, keys);
    assert Reads(t, Render(t), vals, params, keys) && Flat(t, vals);
  }

  lemma PlainValues(params: Params, keys: set<string>) returns (vals: Values)
    requires params.Keys <= keys && PlainParams(params)
    ensures Valued(vals, params, keys) && vals.Keys == params.Keys - {""} && forall k :: k in vals ==> Names(vals[k]) == {}
  {
    vals := map k | k in params.Keys - {""} :: Last(params[k]);
  }

  /** The second pass leaves nothing that either pass would still change, and a third level of names is not reached. */
  ghost predicate Settles(text: string, first: Params, second: Params, keys: set<string>) {
    exists t, a, b :: ReadsBoth(t, text, a, first, b, second, keys) && Shallow(t, a, b)
  }

  lemma PlainSettles(t: Template, first: Params, second: Params, keys: set<string>)
    requires Tidy(t, keys) && first.Keys <= keys && second.Keys <= keys && PlainParams(first) && PlainParams(second)
    ensures Settles(Render(t), first, second, keys)
  {
    var a := PlainValues(first, keys);
    var b := PlainValues(second, keys);
    assert ReadsBoth(t, Render(t), a, first, b, second, keys) && Shallow(t, a, b);
  }

  ghost function End(text: string, first: Params, second: Params): string {
    Resolved(Resolved(text, first), second)
  }

  lemma SettlesAtEnd(text: string, first: Params, second: Params, keys: set<string>, mid: string, out: string)
    requires Settles(text, first, second, keys) && Outcome(text, first, mid) && Outcome(mid, second, out)
    ensures out == End(text, first, second)
  {
    var t, a, b :| ReadsBoth(t, text, a, first, b, second, keys) && Shallow(t, a, b);
    ShallowOutcome(t, text, a, first, b, second, keys, mid, out);
    var mid' := Resolved(text, first);
    ResolvedIsOutcome(text, first);
    ResolvedIsOutcome(mid', second);
    ShallowOutcome(t, text, a, first, b, second, keys, mid', Resolved(mid', second));
  }

  /** Two more passes change nothing. */
  lemma EndStays(text: string, first: Params, second: Params, keys: set<string>)
    requires Settles(text, first, second, keys)
    ensures var out := End(text, first, second); Settles(out, first, second, keys) && End(out, first, second) == out
  {
    var t, a, b :| ReadsBoth(t, text, a, first, b, second, keys) && Shallow(t, a, b);
    var mid, out := Resolved(text, first), End(text, first, second);
    ResolvedIsOutcome(text, first);
    ResolvedIsOutcome(mid, second);
    ShallowOutcome(t, text, a, first, b, second, keys, mid, out);
    var t' := Fill(Fill(t, a), b);
    assert ReadsBoth(t', out, a, first, b, second, keys) && Shallow(t', a, b);
    ResolvedIsOutcome(out, first);
    ResolvedIsOutcome(Resolved(out, first), second);
    ShallowOutcome(t', out, a, first, b, second, keys, Resolved(out, first), End(out, first, second));
    FillNothing(t', a);
    FillNothing(t', b);
  }

  // ---------------------------------------------------------------- what the code may produce, in all generality

  ghost predicate TextsOutcome(texts: Params, params: Params, out: Params) {
    out.Keys == texts.Keys && forall k :: k in texts ==> Outcome(texts[k], params, out[k])
  }

  /** A header is kept under its new key unless that key is empty or unresolved. */
  function Put(done: Params, key: string, value: string): Params {
    if Keeps(key) then done[key := value] else done
  }

  predicate Keeps(key: string) {
    key != "" && !Contains(key, MARK)
  }

  ghost predicate EntryOutcome(k: string, value: string, params: Params, before: Params, out: Params) {
    exists key, text :: Outcome(k, params, key) && Outcome(value, params, text) && out == Put(before, key, text)
  }

  /** The entries visited in the given order, each key and each value replaced in an order of its own. */
  ghost predicate EntriesOutcomeBy(order: seq<string>, entries: Params, params: Params, out: Params)
    requires forall k :: k in order ==> k in entries
  {
    if order == [] then out == map[] else
      var last := order[|order| - 1];
      exists before :: && EntriesOutcomeBy(order[..|order| - 1], entries, params, before)
                       && EntryOutcome(last, entries[last], params, before, out)
  }

  lemma EntriesOutcomeExtends(order: seq<string>, entries: Params, params: Params, before: Params, k: string, out: Params)
    requires (forall j :: j in order ==> j in entries) && k in entries
    requires EntriesOutcomeBy(order, entries, params, before) && EntryOutcome(k, entries[k], params, before, out)
    ensures EntriesOutcomeBy(order + [k], entries, params, out)
  {
    var all := order + [k];
    assert all[..|all| - 1] == order && all[|all| - 1] == k;
    assert EntriesOutcomeBy(all[..|all| - 1], entries, params, before);
  }

  /** Whatever the texts, no empty and no unresolved key is kept. */
  lemma {:induction false} EntriesKept(order: seq<string>, entries: Params, params: Params, out: Params)
    requires (forall k :: k in order ==> k in entries) && EntriesOutcomeBy(order, entries, params, out)
    ensures "" !in out && forall k :: k in out ==> !Contains(k, "^_^")
  {
    if order != [] {
      var front, last := order[..|order| - 1], order[|order| - 1];
      var before :| EntriesOutcomeBy(front, entries, params, before) && EntryOutcome(last, entries[last], params, before, out);
      EntriesKept(front, entries, params, before);
    }
  }

  /** Entries without carets are kept as they are, but for an empty key. */
  lemma {:induction false} PlainEntriesStay(order: seq<string>, entries: Params, params: Params, out: Params)
    requires (forall k :: k in order ==> k in entries) && EntriesOutcomeBy(order, entries, params, out)
    requires forall k :: k in entries ==> '^' !in k + entries[k]
    ensures forall k :: k in out <==> k in order && k != ""
    ensures forall k :: k in out ==> out[k] == entries[k]
  {
    if order != [] {
      var front, last := order[..|order| - 1], order[|order| - 1];
      assert order == front + [last];
      var before :| EntriesOutcomeBy(front, entries, params, before) && EntryOutcome(last, entries[last], params, before, out);
      PlainEntriesStay(front, entries, params, before);
      PlainEntryStays(last, entries[last], params, before, out);
    }
  }

  lemma PlainEntryStays(k: string, value: string, params: Params, before: Params, out: Params)
    requires '^' !in k + value && EntryOutcome(k, value, params, before, out)
    ensures out == if k == "" then before else before[k := value]
  {
    forall c | c in k || c in value ensures c in k + value {
    }
    PlainHasNoMark(k);
    PlainHasNoMark(value);
  }

  ghost predicate EntriesOutcome(entries: Params, params: Params, out: Params) {
    exists order :: IsOrder(order, entries) && EntriesOutcomeBy(order, entries, params, out)
  }

  /** No empty and no unresolved key is kept. */
  lemma HeadersKept(entries: Params, params: Params, out: Params)
    requires EntriesOutcome(entries, params, out)
    ensures "" !in out && forall k :: k in out ==> !Contains(k, "^_^")
  {
    var order :| IsOrder(order, entries) && EntriesOutcomeBy(order, entries, params, out);
    assert IsOrder(order, entries);
    EntriesKept(order, entries, params, out);
  }

  /** Entries without carets are kept as they are, but for an empty key. */
  lemma PlainHeadersStay(entries: Params, params: Params, out: Params)
    requires EntriesOutcome(entries, params, out) && forall k :: k in entries ==> '^' !in k + entries[k]
    ensures out == entries - {""}
  {
    var order :| IsOrder(order, entries) && EntriesOutcomeBy(order, entries, params, out);
    assert IsOrder(order, entries);
    PlainEntriesStay(order, entries, params, out);
    SameEntries(order, entries, out);
  }

  lemma SameEntries(order: seq<string>, entries: Params, out: Params)
    requires IsOrder(order, entries) && (forall k :: k in out <==> k in order && k != "")
    requires forall k :: k in out ==> k in entries && out[k] == entries[k]
    ensures out == entries - {""}
  {
  }

  // ---------------------------------------------------------------- headers: keys and values are resolved

  ghost predicate Survives(key: string, params: Params) {
    Keeps(Resolved(key, params))
  }

  ghost predicate DirectKeys(entries: Params, params: Params, keys: set<string>) {
    forall k :: k in entries ==> Direct(k, params, keys)
  }

  /** The key of the outcome comes from that entry, and so does its value. */
  ghost predicate From(k: string, key: string, value: string, entries: Params, params: Params) {
    k in entries && Survives(k, params) && Resolved(k, params) == key && Outcome(entries[k], params, value)
  }

  /** The keys of the outcome are those of the surviving entries, each with a value of one of them. */
  lemma {:induction false} EntryOrigin(order: seq<string>, entries: Params, params: Params, keys: set<string>,
                                       out: Params, key: string)
    requires DirectKeys(entries, params, keys) && (forall k :: k in order ==> k in entries)
    requires EntriesOutcomeBy(order, entries, params, out)
    ensures key in out <==> exists k :: k in order && Survives(k, params) && Resolved(k, params) == key
    ensures key in out ==> exists k :: From(k, key, out[key], entries, params)
  {
    if order != [] {
      var front, last := order[..|order| - 1], order[|order| - 1];
      assert order == front + [last];
      var before :| EntriesOutcomeBy(front, entries, params, before) && EntryOutcome(last, entries[last], params, before, out);
      EntryOrigin(front, entries, params, keys, before, key);
      var key1, text :| Outcome(last, params, key1) && Outcome(entries[last], params, text) && out == Put(before, key1, text);
      DirectIsResolved(last, params, keys, key1);
      if Survives(last, params) && key1 == key {
        assert From(last, key, out[key], entries, params);
      }
    }
  }

  lemma EntriesOrigin(entries: Params, params: Params, keys: set<string>, out: Params, key: string)
    requires DirectKeys(entries, params, keys) && EntriesOutcome(entries, params, out)
    ensures key in out <==> exists k :: k in entries && Survives(k, params) && Resolved(k, params) == key
    ensures key in out ==> exists k :: From(k, key, out[key], entries, params)
  {
    var order :| IsOrder(order, entries) && EntriesOutcomeBy(order, entries, params, out);
    EntryOrigin(order, entries, params, keys, out, key);
  }

  /** An order for the entries, and one for each of their texts, picked once and for all. */
  ghost function ResolveEntries(order: seq<string>, entries: Params, params: Params): Params
    requires forall k :: k in order ==> k in entries
  {
    if order == [] then map[] else
      var last := order[|order| - 1];
      Put(ResolveEntries(order[..|order| - 1], entries, params), Resolved(last, params), Resolved(entries[last], params))
  }

  lemma {:induction false} ResolveEntriesIsOutcome(order: seq<string>, entries: Params, params: Params)
    requires forall k :: k in order ==> k in entries
    ensures EntriesOutcomeBy(order, entries, params, ResolveEntries(order, entries, params))
  {
    if order != [] {
      var front, last := order[..|order| - 1], order[|order| - 1];
      ResolveEntriesIsOutcome(front, entries, params);
      ResolvedIsOutcome(last, params);
      ResolvedIsOutcome(entries[last], params);
      var before := ResolveEntries(front, entries, params);
      assert EntryOutcome(last, entries[last], params, before, Put(before, Resolved(last, params), Resolved(entries[last], params)));
    }
  }

  ghost function ResolvedEntries(entries: Params, params: Params): Params {
    if exists order :: IsOrder(order, entries) then
      var order :| IsOrder(order, entries);
      ResolveEntries(order, entries, params)
    else map[]
  }

  lemma ResolvedEntriesIsOutcome(entries: Params, params: Params)
    ensures EntriesOutcome(entries, params, ResolvedEntries(entries, params))
  {
    var some := AnyOrder(entries);
    var order :| IsOrder(order, entries) && ResolvedEntries(entries, params) == ResolveEntries(order, entries, params);
    assert IsOrder(order, entries);
    ResolveEntriesIsOutcome(order, entries, params);
  }

  /** Entries whose keys become the same carry the same value. */
  ghost predicate Agree(entries: Params, params: Params) {
    forall j, k :: j in entries && k in entries && Survives(j, params) && Survives(k, params)
                   && Resolved(j, params) == Resolved(k, params)
                   ==> Resolved(entries[j], params) == Resolved(entries[k], params)
  }

  ghost predicate DirectEntries(entries: Params, params: Params, keys: set<string>) {
    DirectKeys(entries, params, keys) && forall k :: k in entries ==> Direct(entries[k], params, keys)
  }

  lemma AgreeingEntries(entries: Params, params: Params, keys: set<string>, o1: Params, o2: Params)
    requires DirectEntries(entries, params, keys) && Agree(entries, params)
    requires EntriesOutcome(entries, params, o1) && EntriesOutcome(entries, params, o2)
    ensures o1 == o2
  {
    forall key ensures key in o1 <==> key in o2 ensures key in o1 ==> o1[key] == o2[key] {
      EntriesOrigin(entries, params, keys, o1, key);
      EntriesOrigin(entries, params, keys, o2, key);
      if key in o1 {
        var j :| From(j, key, o1[key], entries, params);
        var k :| From(k, key, o2[key], entries, params);
        DirectIsResolved(entries[j], params, keys, o1[key]);
        DirectIsResolved(entries[k], params, keys, o2[key]);
      }
    }
  }

  /** The entry visited last prevails. */
  lemma EntryLast(entries: Params, params: Params, front: seq<string>, k: string) returns (out: Params)
    requires IsOrder(front + [k], entries) && k in entries && Survives(k, params)
    ensures EntriesOutcome(entries, params, out)
    ensures Resolved(k, params) in out && out[Resolved(k, params)] == Resolved(entries[k], params)
  {
    var order := front + [k];
    assert order[..|order| - 1] == front;
    out := ResolveEntries(order, entries, params);
    ResolveEntriesIsOutcome(order, entries, params);
  }

  /** Entries that disagree come out differently, depending on which of them is visited last. */
  lemma DisagreeingOutcomes(entries: Params, params: Params) returns (o1: Params, o2: Params)
    requires !Agree(entries, params)
    ensures EntriesOutcome(entries, params, o1) && EntriesOutcome(entries, params, o2) && o1 != o2
  {
    var j, k :| j in entries && k in entries && Survives(j, params) && Survives(k, params)
                && Resolved(j, params) == Resolved(k, params)
                && Resolved(entries[j], params) != Resolved(entries[k], params);
    var before := LastInOrder(entries, j);
    var before' := LastInOrder(entries, k);
    o1 := EntryLast(entries, params, before, j);
    o2 := EntryLast(entries, params, before', k);
  }

  /** The code has one outcome for the headers, over all orders of the entries and of the parameters, exactly
      when entries whose keys become equal carry equal values. */
  lemma HeadersOrderIndependentIff(entries: Params, params: Params, keys: set<string>)
    requires DirectEntries(entries, params, keys)
    ensures Agree(entries, params) <==>
      forall o1, o2 :: EntriesOutcome(entries, params, o1) && EntriesOutcome(entries, params, o2) ==> o1 == o2
  {
    if Agree(entries, params) {
      forall o1, o2 | EntriesOutcome(entries, params, o1) && EntriesOutcome(entries, params, o2) ensures o1 == o2 {
        AgreeingEntries(entries, params, keys, o1, o2);
      }
    } else {
      var o1, o2 := DisagreeingOutcomes(entries, params);
    }
  }

  /** Both passes: keys are resolved by the first one, values by the second at the latest, and entries whose
      keys become the same come to carry the same value. */
  ghost predicate EntriesSettle(entries: Params, first: Params, second: Params, keys: set<string>) {
    && DirectKeys(entries, first, keys) && (forall k :: k in entries ==> Settles(entries[k], first, second, keys))
    && forall j, k :: j in entries && k in entries && Survives(j, first) && Survives(k, first)
                      && Resolved(j, first) == Resolved(k, first)
                      ==> End(entries[j], first, second) == End(entries[k], first, second)
  }

  /** A key that survived the first pass is not changed by the second. */
  lemma KeptStays(key: string, params: Params, out: string)
    requires Keeps(key) && Outcome(key, params, out)
    ensures out == key
  {
  }

  ghost predicate EndsFrom(k: string, key: string, value: string, entries: Params, first: Params, second: Params) {
    k in entries && Survives(k, first) && Resolved(k, first) == key && value == End(entries[k], first, second)
  }

  lemma {:induction false} KeptOrigin(order: seq<string>, entries: Params, params: Params, out: Params, key: string)
    requires (forall k :: k in order ==> k in entries) && (forall k :: k in entries ==> Keeps(k))
    requires EntriesOutcomeBy(order, entries, params, out)
    ensures key in out <==> key in order
    ensures key in out ==> Outcome(entries[key], params, out[key])
  {
    if order != [] {
      var front, last := order[..|order| - 1], order[|order| - 1];
      assert order == front + [last];
      var before :| EntriesOutcomeBy(front, entries, params, before) && EntryOutcome(last, entries[last], params, before, out);
      KeptOrigin(front, entries, params, before, key);
      var key1, text :| Outcome(last, params, key1) && Outcome(entries[last], params, text) && out == Put(before, key1, text);
      KeptStays(last, params, key1);
    }
  }

  lemma SecondPassOrigin(entries: Params, first: Params, second: Params, keys: set<string>, mid: Params, out: Params, key: string)
    requires EntriesSettle(entries, first, second, keys)
    requires EntriesOutcome(entries, first, mid) && EntriesOutcome(mid, second, out)
    ensures key in out <==> exists k :: k in entries && Survives(k, first) && Resolved(k, first) == key
    ensures key in out ==> exists k :: EndsFrom(k, key, out[key], entries, first, second)
  {
    EntriesOrigin(entries, first, keys, mid, key);
    forall j | j in mid ensures Keeps(j) {
      EntriesOrigin(entries, first, keys, mid, j);
    }
    var order :| IsOrder(order, mid) && EntriesOutcomeBy(order, mid, second, out);
    KeptOrigin(order, mid, second, out, key);
    if key in out {
      var k :| From(k, key, mid[key], entries, first);
      SettlesAtEnd(entries[k], first, second, keys, mid[key], out[key]);
      assert EndsFrom(k, key, out[key], entries, first, second);
    }
  }

  /** Two passes over the headers have one outcome. */
  lemma EntriesAtEnd(entries: Params, first: Params, second: Params, keys: set<string>, mid: Params, out: Params)
    requires EntriesSettle(entries, first, second, keys)
    requires EntriesOutcome(entries, first, mid) && EntriesOutcome(mid, second, out)
    ensures out == ResolvedEntries(ResolvedEntries(entries, first), second)
  {
    var mid' := ResolvedEntries(entries, first);
    var out' := ResolvedEntries(mid', second);
    ResolvedEntriesIsOutcome(entries, first);
    ResolvedEntriesIsOutcome(mid', second);
    forall key ensures key in out <==> key in out' ensures key in out ==> out[key] == out'[key] {
      SecondPassOrigin(entries, first, second, keys, mid, out, key);
      SecondPassOrigin(entries, first, second, keys, mid', out', key);
      if key in out {
        var j :| EndsFrom(j, key, out[key], entries, first, second);
        var k :| EndsFrom(k, key, out'[key], entries, first, second);
      }
    }
  }

  // ---------------------------------------------------------------- a map rewritten by itself

  ghost predicate EntryReplaced(before: Params, k: string, params: Params, out: Params) {
    k in before && exists text :: Outcome(before[k], params, text) && out == before[k := text]
  }

  ghost predicate EntryRewritten(before: Params, k: string, out: Params) {
    EntryReplaced(before, k, before, out)
  }

  /** The entries are rewritten in the given order, each by the map as it is by then. */
  ghost predicate SelfOutcomeBy(order: seq<string>, was: Params, out: Params) {
    if order == [] then out == was else
      var last := order[|order| - 1];
      exists before :: SelfOutcomeBy(order[..|order| - 1], was, before) && EntryRewritten(before, last, out)
  }

  lemma SelfOutcomeExtends(order: seq<string>, was: Params, before: Params, k: string, out: Params)
    requires SelfOutcomeBy(order, was, before) && EntryRewritten(before, k, out)
    ensures SelfOutcomeBy(order + [k], was, out)
  {
    var all := order + [k];
    assert all[..|all| - 1] == order && all[|all| - 1] == k;
    assert SelfOutcomeBy(all[..|all| - 1], was, before);
  }

  ghost predicate SelfOutcome(was: Params, out: Params) {
    exists order :: IsOrder(order, was) && SelfOutcomeBy(order, was, out)
  }

  lemma {:induction false} SomeSelfOutcomeBy(order: seq<string>, was: Params) returns (out: Params)
    requires forall k :: k in order ==> k in was
    ensures out.Keys == was.Keys && SelfOutcomeBy(order, was, out)
  {
    out := was;
    if order != [] {
      var front, last := order[..|order| - 1], order[|order| - 1];
      var before := SomeSelfOutcomeBy(front, was);
      var text := SomeOutcome(before[last], before);
      out := before[last := text];
      assert EntryRewritten(before, last, out);
      SelfOutcomeExtends(front, was, before, last, out);
      assert front + [last] == order;
    }
  }

  lemma SomeSelfOutcome(was: Params) returns (out: Params)
    ensures SelfOutcome(was, out)
  {
    var order := AnyOrder(was);
    out := SomeSelfOutcomeBy(order, was);
  }

  ghost function ResolveTexts(texts: Params, params: Params): Params {
    map k | k in texts :: Resolved(texts[k], params)
  }

  ghost predicate DirectTexts(texts: Params, params: Params, keys: set<string>) {
    forall k :: k in texts ==> Direct(texts[k], params, keys)
  }

  /** The map after some of its entries are rewritten. */
  ghost predicate PartlyResolved(done: seq<string>, was: Params, now: Params) {
    now.Keys == was.Keys && forall k :: k in was ==> now[k] == if k in done then Resolved(was[k], was) else was[k]
  }

  /** What names no parameter with a value is not changed by a pass. */
  lemma InertStays(t: Template, text: string, vals: Values, params: Params, keys: set<string>)
    requires Reads(t, text, vals, params, keys) && Names(t) !! vals.Keys
    ensures Resolved(text, params) == text
  {
    ResolvedIsOutcome(text, params);
    DirectOutcome(t, text, vals, params, keys, Resolved(text, params));
    FillNothing(t, vals);
  }

  /** The values that a flat template needs are those that rewriting does not change. */
  lemma SameReading(t: Template, text: string, vals: Values, was: Params, keys: set<string>, done: seq<string>, now: Params)
    returns (used: Values)
    requires Reads(t, text, vals, was, keys) && Flat(t, vals) && PartlyResolved(done, was, now)
    ensures Reads(t, text, used, now, keys) && Flat(t, used) && Fill(t, used) == Fill(t, vals)
  {
    used := map n | n in vals && n in Names(t) :: vals[n];
    forall n | n in used ensures now[n] == was[n] && Names(used[n]) !! vals.Keys {
      InertStays(vals[n], was[n], vals, was, keys);
    }
    forall n | n in was && n !in vals && was[n] == Placeholder(n) ensures now[n] == was[n] {
      PlaceholderStays(n, vals, was, keys);
    }
    FillSame(t, used, vals);
  }

  lemma PlaceholderStays(n: string, vals: Values, params: Params, keys: set<string>)
    requires Valued(vals, params, keys) && CoversAll(vals, vals, params)
    requires n in params && n !in vals && params[n] == Placeholder(n)
    ensures Resolved(params[n], params) == params[n]
  {
    assert Names(Last("")) == {} && Render(Last("")) == "";
    assert Render(Self(n)) == "" + Placeholder(n) + "" == Placeholder(n);
    InertStays(Self(n), params[n], vals, params, keys);
  }

  /** The map as it is by then leads to the same outcome as the map at the start. */
  lemma SameOutcome(was: Params, keys: set<string>, done: seq<string>, now: Params, k: string, text: string)
    requires k in was && Direct(was[k], was, keys) && PartlyResolved(done, was, now) && k !in done
    requires Outcome(now[k], now, text)
    ensures text == Resolved(was[k], was)
  {
    var t, vals :| Reads(t, was[k], vals, was, keys) && Flat(t, vals);
    var used := SameReading(t, was[k], vals, was, keys, done, now);
    DirectOutcome(t, was[k], used, now, keys, text);
    ResolvedIsOutcome(was[k], was);
    DirectOutcome(t, was[k], vals, was, keys, Resolved(was[k], was));
  }

  lemma {:induction false} SelfResolvedBy(order: seq<string>, was: Params, out: Params, keys: set<string>)
    requires DirectTexts(was, was, keys) && SelfOutcomeBy(order, was, out) && (forall k :: k in order ==> k in was)
    requires forall i, j :: 0 <= i < j < |order| ==> order[i] != order[j]
    ensures PartlyResolved(order, was, out)
  {
    if order != [] {
      var front, last := order[..|order| - 1], order[|order| - 1];
      assert order == front + [last] && last !in front;
      var before :| SelfOutcomeBy(front, was, before) && EntryRewritten(before, last, out);
      SelfResolvedBy(front, was, before, keys);
      SelfResolvedNext(front, was, before, last, out, keys);
    }
  }

  lemma SelfResolvedNext(done: seq<string>, was: Params, before: Params, k: string, out: Params, keys: set<string>)
    requires k in was && Direct(was[k], was, keys) && k !in done
    requires PartlyResolved(done, was, before) && EntryRewritten(before, k, out)
    ensures PartlyResolved(done + [k], was, out)
  {
    var text :| Outcome(before[k], before, text) && out == before[k := text];
    SameOutcome(was, keys, done, before, k, text);
  }

  /** A map whose entries one pass resolves completely comes out resolved by itself, although it changes meanwhile. */
  lemma SelfResolved(was: Params, out: Params, keys: set<string>)
    requires DirectTexts(was, was, keys) && SelfOutcome(was, out)
    ensures out == ResolveTexts(was, was)
  {
    var order :| IsOrder(order, was) && SelfOutcomeBy(order, was, out);
    SelfResolvedBy(order, was, out, keys);
  }
}
