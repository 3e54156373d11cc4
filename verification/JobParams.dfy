/**
 Parameter replacement on a cyclic job, execution after execution.  Each execution clones the job's
 metrics, replaces placeholders in the clone, merges the job's configuration into the clone's own map and
 replaces once more with that map.  The clone has its own HTTP settings and its own map, but it points to
 the same JDBC, SSH and Redis structs as the original, which are overwritten.
 */
module JobParams {
  import opened Collections
  import opened Nesting
  import opened Resolution
  import opened Substitution

  // ---------------------------------------------------------------- contents, as values

  datatype HttpView = HttpView(texts: Params, headers: Option<Params>, query: Option<Params>, auth: Option<Params>)

  /** The texts of one metric: its own fields, its map, and the structs it points to. */
  datatype View = View(
    texts: Params,
    configMap: Option<Params>,
    http: Option<HttpView>,
    jdbc: Option<Params>,
    ssh: Option<Params>,
    redis: Option<Params>)

  /** One entry of the job's configuration, with the two ways in which its value is turned into text. */
  datatype ConfigEntry = ConfigEntry(key: string, simple: string, printed: string)

  function SimpleMap(config: seq<ConfigEntry>): Params {
    if config == [] then map[] else
      var last := config[|config| - 1];
      SimpleMap(config[..|config| - 1])[last.key := last.simple]
  }

  function Merged(base: Params, config: seq<ConfigEntry>): Params {
    if config == [] then base else
      var last := config[|config| - 1];
      Merged(base, config[..|config| - 1])[last.key := last.printed]
  }

  /** No later entry has the same key. */
  ghost predicate IsLastEntry(config: seq<ConfigEntry>, i: int) {
    0 <= i < |config| && forall j :: i < j < |config| ==> config[j].key != config[i].key
  }

  predicate Sets(config: seq<ConfigEntry>, k: string) {
    exists i :: 0 <= i < |config| && config[i].key == k
  }

  lemma SetsNext(config: seq<ConfigEntry>, k: string)
    requires config != []
    ensures Sets(config, k) <==> Sets(config[..|config| - 1], k) || config[|config| - 1].key == k
  {
    var front := config[..|config| - 1];
    if i :| 0 <= i < |front| && front[i].key == k {
      assert config[i].key == k;
    }
    if i :| 0 <= i < |config| && config[i].key == k {
      assert i < |front| ==> front[i].key == k;
    }
  }

  lemma {:induction false} SimpleMapKeys(config: seq<ConfigEntry>, k: string)
    ensures k in SimpleMap(config) <==> Sets(config, k)
  {
    if config != [] {
      SimpleMapKeys(config[..|config| - 1], k);
      SetsNext(config, k);
    }
  }

  lemma {:induction false} SimpleMapAt(config: seq<ConfigEntry>, i: int)
    requires IsLastEntry(config, i)
    ensures config[i].key in SimpleMap(config) && SimpleMap(config)[config[i].key] == config[i].simple
  {
    if i < |config| - 1 {
      SimpleMapAt(config[..|config| - 1], i);
    }
  }

  /** The configured keys, and the first text of the last entry of each. */
  lemma SimpleMapIs(config: seq<ConfigEntry>)
    ensures forall k :: k in SimpleMap(config) <==> Sets(config, k)
    ensures forall i :: IsLastEntry(config, i) ==>
      config[i].key in SimpleMap(config) && SimpleMap(config)[config[i].key] == config[i].simple
  {
    forall k ensures k in SimpleMap(config) <==> Sets(config, k) {
      SimpleMapKeys(config, k);
    }
    forall i | IsLastEntry(config, i)
      ensures config[i].key in SimpleMap(config) && SimpleMap(config)[config[i].key] == config[i].simple
    {
      SimpleMapAt(config, i);
    }
  }

  lemma {:induction false} MergedOther(base: Params, config: seq<ConfigEntry>, k: string)
    requires !Sets(config, k)
    ensures (k in Merged(base, config) <==> k in base) && (k in base ==> Merged(base, config)[k] == base[k])
  {
    if config != [] {
      SetsNext(config, k);
      MergedOther(base, config[..|config| - 1], k);
    }
  }

  lemma {:induction false} MergedAt(base: Params, config: seq<ConfigEntry>, i: int)
    requires IsLastEntry(config, i)
    ensures config[i].key in Merged(base, config) && Merged(base, config)[config[i].key] == config[i].printed
  {
    if i < |config| - 1 {
      MergedAt(base, config[..|config| - 1], i);
    }
  }

  /** The second text of the last entry of each key; other keys stay as they were. */
  lemma MergedMapIs(base: Params, config: seq<ConfigEntry>)
    ensures forall i :: IsLastEntry(config, i) ==>
      config[i].key in Merged(base, config) && Merged(base, config)[config[i].key] == config[i].printed
    ensures forall k :: !Sets(config, k) ==>
      (k in Merged(base, config) <==> k in base) && (k in base ==> Merged(base, config)[k] == base[k])
  {
    forall i | IsLastEntry(config, i)
      ensures config[i].key in Merged(base, config) && Merged(base, config)[config[i].key] == config[i].printed
    {
      MergedAt(base, config, i);
    }
    forall k | !Sets(config, k)
      ensures (k in Merged(base, config) <==> k in base) && (k in base ==> Merged(base, config)[k] == base[k])
    {
      MergedOther(base, config, k);
    }
  }

  ghost predicate OptTexts(texts: Option<Params>, params: Params, out: Option<Params>) {
    texts.Some? == out.Some? && (texts.Some? ==> TextsOutcome(texts.value, params, out.value))
  }

  ghost predicate OptEntries(entries: Option<Params>, params: Params, out: Option<Params>) {
    entries.Some? == out.Some? && (entries.Some? ==> EntriesOutcome(entries.value, params, out.value))
  }

  ghost predicate HttpOutcome(h: HttpView, params: Params, out: HttpView) {
    && TextsOutcome(h.texts, params, out.texts)
    && OptEntries(h.headers, params, out.headers) && OptEntries(h.query, params, out.query)
    && OptTexts(h.auth, params, out.auth)
  }

  /** What one replacement pass may make of everything but the metric's own map. */
  ghost predicate PassOutcome(v: View, params: Params, out: View) {
    && TextsOutcome(v.texts, params, out.texts)
    && OptTexts(v.jdbc, params, out.jdbc) && OptTexts(v.ssh, params, out.ssh) && OptTexts(v.redis, params, out.redis)
    && v.http.Some? == out.http.Some? && (v.http.Some? ==> HttpOutcome(v.http.value, params, out.http.value))
  }

  function MapOf(configMap: Option<Params>): Params {
    if configMap.Some? then configMap.value else map[]
  }

  /** Both passes of one execution.  The second one uses the merged map while rewriting it. */
  ghost predicate ExecutionOutcome(v: View, config: seq<ConfigEntry>, mid: View, out: View) {
    && PassOutcome(v, SimpleMap(config), mid) && OptTexts(v.configMap, SimpleMap(config), mid.configMap)
    && var own := Merged(MapOf(mid.configMap), config);
       PassOutcome(mid, own, out) && out.configMap.Some? && SelfOutcome(own, out.configMap.value)
  }

  /** The original after an execution: only the shared structs have new contents. */
  function AfterExecution(v: View, out: View): View {
    v.(jdbc := out.jdbc, ssh := out.ssh, redis := out.redis)
  }

  /** What a name comes to: the first text of its last configuration entry, or else its entry in the metric's map. */
  ghost predicate ComesTo(own: Params, config: seq<ConfigEntry>, name: string, value: string) {
    || (exists i :: IsLastEntry(config, i) && config[i].key == name && value == config[i].simple)
    || (!Sets(config, name) && name in own && value == own[name])
  }

  /** Where a metric keeps texts. */
  datatype Place = Own | Jdbc | Ssh | Redis | Request | Authorization

  function TextsAt(v: View, place: Place): Params {
    match place
    case Own => v.texts
    case Jdbc => MapOf(v.jdbc)
    case Ssh => MapOf(v.ssh)
    case Redis => MapOf(v.redis)
    case Request => if v.http.Some? then v.http.value.texts else map[]
    case Authorization => if v.http.Some? then MapOf(v.http.value.auth) else map[]
  }

  lemma PassAt(v: View, params: Params, out: View, place: Place)
    requires PassOutcome(v, params, out)
    ensures TextsOutcome(TextsAt(v, place), params, TextsAt(out, place))
  {
  }

  ghost predicate PlainEntry(entry: ConfigEntry) {
    '^' !in entry.key + entry.simple + entry.printed
  }

  /** An execution of a metric puts in place of a name what the name comes to, or leaves it; the map that the
      metric comes to carry holds the second texts. */
  lemma ExecutionOfOneName(v: View, config: seq<ConfigEntry>, mid: View, out: View,
                           place: Place, field: string, lit: string, name: string, tail: string, value: string)
    requires ExecutionOutcome(v, config, mid, out) && PlainParams(MapOf(v.configMap))
    requires (forall i :: 0 <= i < |config| ==> PlainEntry(config[i])) && '^' !in lit + name + tail && name != ""
    requires field in TextsAt(v, place) && TextsAt(v, place)[field] == lit + "^_^" + name + "^_^" + tail
    ensures field in TextsAt(out, place)
    ensures ComesTo(MapOf(v.configMap), config, name, value) ==> TextsAt(out, place)[field] == lit + value + tail
    ensures !Sets(config, name) && name !in MapOf(v.configMap) ==> TextsAt(out, place)[field] == TextsAt(v, place)[field]
    ensures out.configMap.Some? && forall i :: IsLastEntry(config, i) ==>
      config[i].key in out.configMap.value && out.configMap.value[config[i].key] == config[i].printed
  {
    var first, base := SimpleMap(config), MapOf(v.configMap);
    var own := Merged(base, config);
    PlainConfig(base, config);
    PlainMapStays(v.configMap, first, mid.configMap);
    PassAt(v, first, mid, place);
    PassAt(mid, own, out, place);
    OneNameTwice(TextsAt(v, place)[field], TextsAt(mid, place)[field], TextsAt(out, place)[field], lit, name, tail, first, own);
    SimpleMapIs(config);
    MergedMapIs(base, config);
    PlainOwnMap(own, own.Keys);
    SelfResolved(own, out.configMap.value, own.Keys);
  }

  lemma {:induction false} PlainConfig(base: Params, config: seq<ConfigEntry>)
    requires PlainParams(base) && forall i :: 0 <= i < |config| ==> PlainEntry(config[i])
    ensures PlainParams(SimpleMap(config)) && PlainParams(Merged(base, config))
  {
    if config != [] {
      PlainConfig(base, config[..|config| - 1]);
      var last := config[|config| - 1];
      assert PlainEntry(last);
      forall c | c in last.key || c in last.simple || c in last.printed ensures c in last.key + last.simple + last.printed {
      }
    }
  }

  lemma PlainMapStays(own: Option<Params>, params: Params, out: Option<Params>)
    requires OptTexts(own, params, out) && PlainParams(MapOf(own))
    ensures MapOf(out) == MapOf(own)
  {
    if own.Some? {
      forall k | k in own.value ensures out.value[k] == own.value[k] {
        PlainHasNoMark(own.value[k]);
      }
    }
  }

  /** A text with one name, in two passes. */
  lemma OneNameTwice(text: string, mid: string, out: string, lit: string, name: string, tail: string, first: Params, second: Params)
    requires '^' !in lit + name + tail && name != "" && text == lit + "^_^" + name + "^_^" + tail
    requires PlainParams(first) && PlainParams(second) && Outcome(text, first, mid) && Outcome(mid, second, out)
    ensures out == if name in first then lit + first[name] + tail else if name in second then lit + second[name] + tail else text
  {
    var o1 :| IsOrder(o1, first) && mid == InOrder(text, o1, first);
    OnePlaceholder(lit, name, tail, o1, first);
    var o2 :| IsOrder(o2, second) && out == InOrder(mid, o2, second);
    if name in first {
      forall c | c in mid ensures c in lit + name + tail || c in first[name] {
      }
      PlainHasNoMark(mid);
    } else {
      OnePlaceholder(lit, name, tail, o2, second);
    }
  }

  /** The HTTP entries of a request: its headers or its query parameters. */
  function EntriesAt(v: View, headers: bool): Option<Params> {
    if v.http.None? then None else if headers then v.http.value.headers else v.http.value.query
  }

  /** A header whose key and value hold one name each.  The first pass decides about the key: one that the
      configuration does not resolve is dropped, although the metric's own map may know the name. */
  lemma ExecutionOfOneHeader(v: View, config: seq<ConfigEntry>, mid: View, out: View, headers: bool,
                             lit: string, name: string, tail: string, text: string)
    requires ExecutionOutcome(v, config, mid, out) && PlainParams(MapOf(v.configMap))
    requires (forall i :: 0 <= i < |config| ==> PlainEntry(config[i])) && '^' !in lit + name + tail + text && name != ""
    requires EntriesAt(v, headers) == Some(map[lit + "^_^" + name + "^_^" + tail := text])
    ensures !Sets(config, name) ==> EntriesAt(out, headers) == Some(map[])
    ensures forall i :: IsLastEntry(config, i) && config[i].key == name && lit + config[i].simple + tail != "" ==>
      EntriesAt(out, headers) == Some(map[lit + config[i].simple + tail := text])
  {
    var first, base := SimpleMap(config), MapOf(v.configMap);
    PlainConfig(base, config);
    PlainMapStays(v.configMap, first, mid.configMap);
    SimpleMapIs(config);
    PassAtEntries(v, first, mid, headers);
    PassAtEntries(mid, Merged(base, config), out, headers);
    OneEntryTwice(lit, name, tail, text, first, Merged(base, config), EntriesAt(mid, headers).value, EntriesAt(out, headers).value);
  }

  lemma PassAtEntries(v: View, params: Params, out: View, headers: bool)
    requires PassOutcome(v, params, out)
    ensures OptEntries(EntriesAt(v, headers), params, EntriesAt(out, headers))
  {
  }

  /** Both passes over that header. */
  lemma OneEntryTwice(lit: string, name: string, tail: string, text: string, first: Params, second: Params, mid: Params, out: Params)
    requires '^' !in lit + name + tail + text && name != "" && PlainParams(first)
    requires EntriesOutcome(map[lit + "^_^" + name + "^_^" + tail := text], first, mid) && EntriesOutcome(mid, second, out)
    ensures name !in first ==> out == map[]
    ensures name in first ==>
      var kept := lit + first[name] + tail;
      out == if kept == "" then map[] else map[kept := text]
  {
    forall c | c in lit + name + tail || c in text ensures c in lit + name + tail + text {
    }
    OneEntryFirst(lit, name, tail, text, first, mid);
    forall k | k in mid ensures '^' !in k + mid[k] && k != "" {
    }
    PlainHeadersStay(mid, second, out);
    assert mid - {""} == mid;
  }

  /** The first pass over that header. */
  lemma OneEntryFirst(lit: string, name: string, tail: string, text: string, params: Params, out: Params)
    requires '^' !in lit + name + tail && '^' !in text && name != "" && PlainParams(params)
    requires EntriesOutcome(map[lit + "^_^" + name + "^_^" + tail := text], params, out)
    ensures name !in params ==> out == map[]
    ensures name in params ==>
      var kept := lit + params[name] + tail;
      NoCaret(kept) && out == if kept == "" then map[] else map[kept := text]
  {
    var key := lit + "^_^" + name + "^_^" + tail;
    var entries := map[key := text];
    var order :| IsOrder(order, entries) && EntriesOutcomeBy(order, entries, params, out);
    SingleOrder(order, key, text);
    assert order[..0] == [];
    var before :| EntriesOutcomeBy(order[..0], entries, params, before) && EntryOutcome(key, text, params, before, out);
    OneEntryPut(lit, name, tail, text, params, out);
  }

  lemma SingleOrder(order: seq<string>, key: string, value: string)
    requires IsOrder(order, map[key := value])
    ensures order == [key]
  {
    var entries := map[key := value];
    assert key in entries && key in order;
    var two := |order| > 1;
    assert two ==> order[0] != order[1];
    forall i | 0 <= i < |order| ensures order[i] == key {
      assert order[i] in order;
    }
  }

  lemma OneEntryPut(lit: string, name: string, tail: string, text: string, params: Params, out: Params)
    requires '^' !in lit + name + tail && '^' !in text && name != "" && PlainParams(params)
    requires EntryOutcome(lit + "^_^" + name + "^_^" + tail, text, params, map[], out)
    ensures name !in params ==> out == map[]
    ensures name in params ==>
      var kept := lit + params[name] + tail;
      NoCaret(kept) && out == if kept == "" then map[] else map[kept := text]
  {
    var key := lit + "^_^" + name + "^_^" + tail;
    var key1, value :| Outcome(key, params, key1) && Outcome(text, params, value) && out == Put(map[], key1, value);
    PlainHasNoMark(text);
    var order :| IsOrder(order, params) && key1 == InOrder(key, order, params);
    OnePlaceholder(lit, name, tail, order, params);
    if name in params {
      forall c | c in key1 ensures c in lit + name + tail || c in params[name] {
      }
      PlainHasNoMark(key1);
    } else {
      assert key == lit + MARK + (name + "^_^" + tail);
      ContainsAfter(lit, name + "^_^" + tail);
    }
  }

  // ---------------------------------------------------------------- every execution gives the same result

  ghost function OptResolve(texts: Option<Params>, params: Params): Option<Params> {
    if texts.Some? then Some(ResolveTexts(texts.value, params)) else None
  }

  ghost function OptResolveEntries(entries: Option<Params>, params: Params): Option<Params> {
    if entries.Some? then Some(ResolvedEntries(entries.value, params)) else None
  }

  ghost function ResolveHttp(h: HttpView, params: Params): HttpView {
    HttpView(ResolveTexts(h.texts, params), OptResolveEntries(h.headers, params), OptResolveEntries(h.query, params),
             OptResolve(h.auth, params))
  }

  ghost function ResolvePass(v: View, params: Params): View {
    v.(texts := ResolveTexts(v.texts, params),
       jdbc := OptResolve(v.jdbc, params), ssh := OptResolve(v.ssh, params), redis := OptResolve(v.redis, params),
       http := if v.http.Some? then Some(ResolveHttp(v.http.value, params)) else None)
  }

  ghost predicate TextsSettle(texts: Params, first: Params, second: Params, keys: set<string>) {
    forall k :: k in texts ==> Settles(texts[k], first, second, keys)
  }

  ghost predicate OptSettle(texts: Option<Params>, first: Params, second: Params, keys: set<string>) {
    texts.Some? ==> TextsSettle(texts.value, first, second, keys)
  }

  ghost predicate OptEntriesSettle(entries: Option<Params>, first: Params, second: Params, keys: set<string>) {
    entries.Some? ==> EntriesSettle(entries.value, first, second, keys)
  }

  ghost predicate HttpSettles(h: HttpView, first: Params, second: Params, keys: set<string>) {
    && TextsSettle(h.texts, first, second, keys) && OptSettle(h.auth, first, second, keys)
    && OptEntriesSettle(h.headers, first, second, keys) && OptEntriesSettle(h.query, first, second, keys)
  }

  ghost predicate ViewSettles(v: View, first: Params, second: Params, keys: set<string>) {
    && TextsSettle(v.texts, first, second, keys) && (v.http.Some? ==> HttpSettles(v.http.value, first, second, keys))
    && OptSettle(v.jdbc, first, second, keys) && OptSettle(v.ssh, first, second, keys) && OptSettle(v.redis, first, second, keys)
  }

  /** The keys that the configuration sets, with their texts as merged into a metric's map. */
  function Configured(config: seq<ConfigEntry>): Params {
    Merged(map[], config)
  }

  /** Each entry of the metric's own map is resolved by the first pass, unless the configuration overwrites it. */
  ghost predicate MapSettles(own: Params, config: seq<ConfigEntry>, keys: set<string>) {
    forall k :: k in own ==> k in Configured(config) || Direct(own[k], SimpleMap(config), keys)
  }

  /** The map that the second pass of an execution uses. */
  ghost function OwnMap(v: View, config: seq<ConfigEntry>): Params {
    Merged(MapOf(OptResolve(v.configMap, SimpleMap(config))), config)
  }

  /** The side conditions, on the job's configuration and on the metric before the first execution. */
  ghost predicate WellPosed(v: View, config: seq<ConfigEntry>, keys: set<string>) {
    MapSettles(MapOf(v.configMap), config, keys) && ViewSettles(v, SimpleMap(config), OwnMap(v, config), keys)
  }

  lemma {:induction false} MergedIs(base: Params, config: seq<ConfigEntry>, k: string)
    ensures k in Merged(base, config) <==> k in base || k in Configured(config)
    ensures k in Configured(config) ==> Merged(base, config)[k] == Configured(config)[k]
    ensures k in base && k !in Configured(config) ==> Merged(base, config)[k] == base[k]
    ensures k in Configured(config) <==> k in SimpleMap(config)
  {
    if config != [] {
      MergedIs(base, config[..|config| - 1], k);
    }
  }

  /** What the configuration does not overwrite is resolved by the first pass, so the merged map is always the same. */
  lemma OwnMapUnique(v: View, config: seq<ConfigEntry>, keys: set<string>, after: Option<Params>)
    requires MapSettles(MapOf(v.configMap), config, keys) && OptTexts(v.configMap, SimpleMap(config), after)
    ensures Merged(MapOf(after), config) == OwnMap(v, config)
  {
    var was, now, meant := MapOf(v.configMap), MapOf(after), MapOf(OptResolve(v.configMap, SimpleMap(config)));
    forall k ensures k in Merged(now, config) <==> k in OwnMap(v, config)
      ensures k in Merged(now, config) ==> Merged(now, config)[k] == OwnMap(v, config)[k]
    {
      MergedIs(now, config, k);
      MergedIs(meant, config, k);
      if k in was && k !in Configured(config) {
        DirectIsResolved(was[k], SimpleMap(config), keys, now[k]);
      }
    }
  }

  lemma TextsAtEnd(texts: Params, first: Params, second: Params, keys: set<string>, mid: Params, out: Params)
    requires TextsSettle(texts, first, second, keys) && TextsOutcome(texts, first, mid) && TextsOutcome(mid, second, out)
    ensures out == ResolveTexts(ResolveTexts(texts, first), second)
  {
    forall k | k in texts ensures out[k] == End(texts[k], first, second) {
      SettlesAtEnd(texts[k], first, second, keys, mid[k], out[k]);
    }
  }

  lemma OptAtEnd(texts: Option<Params>, first: Params, second: Params, keys: set<string>,
                 mid: Option<Params>, out: Option<Params>)
    requires OptSettle(texts, first, second, keys) && OptTexts(texts, first, mid) && OptTexts(mid, second, out)
    ensures out == OptResolve(OptResolve(texts, first), second)
  {
    if texts.Some? {
      TextsAtEnd(texts.value, first, second, keys, mid.value, out.value);
    }
  }

  lemma OptEntriesAtEnd(entries: Option<Params>, first: Params, second: Params, keys: set<string>,
                        mid: Option<Params>, out: Option<Params>)
    requires OptEntriesSettle(entries, first, second, keys)
    requires OptEntries(entries, first, mid) && OptEntries(mid, second, out)
    ensures out == OptResolveEntries(OptResolveEntries(entries, first), second)
  {
    if entries.Some? {
      EntriesAtEnd(entries.value, first, second, keys, mid.value, out.value);
    }
  }

  lemma HttpAtEnd(h: HttpView, first: Params, second: Params, keys: set<string>, mid: HttpView, out: HttpView)
    requires HttpSettles(h, first, second, keys) && HttpOutcome(h, first, mid) && HttpOutcome(mid, second, out)
    ensures out == ResolveHttp(ResolveHttp(h, first), second)
  {
    TextsAtEnd(h.texts, first, second, keys, mid.texts, out.texts);
    OptAtEnd(h.auth, first, second, keys, mid.auth, out.auth);
    OptEntriesAtEnd(h.headers, first, second, keys, mid.headers, out.headers);
    OptEntriesAtEnd(h.query, first, second, keys, mid.query, out.query);
  }

  /** Two passes have one outcome, whatever the map orders. */
  lemma ViewAtEnd(v: View, first: Params, second: Params, keys: set<string>, mid: View, out: View)
    requires ViewSettles(v, first, second, keys) && PassOutcome(v, first, mid) && PassOutcome(mid, second, out)
    ensures out.(configMap := v.configMap) == ResolvePass(ResolvePass(v, first), second)
  {
    TextsAtEnd(v.texts, first, second, keys, mid.texts, out.texts);
    OptAtEnd(v.jdbc, first, second, keys, mid.jdbc, out.jdbc);
    OptAtEnd(v.ssh, first, second, keys, mid.ssh, out.ssh);
    OptAtEnd(v.redis, first, second, keys, mid.redis, out.redis);
    if v.http.Some? {
      HttpAtEnd(v.http.value, first, second, keys, mid.http.value, out.http.value);
    }
  }

  ghost function FinalView(v: View, config: seq<ConfigEntry>): View {
    ResolvePass(ResolvePass(v, SimpleMap(config)), OwnMap(v, config)).(configMap :=
      Some(ResolveTexts(OwnMap(v, config), OwnMap(v, config))))
  }

  /** The execution gave what is meant, and its map too if the merged map can resolve itself. */
  ghost predicate Gives(out: View, v: View, config: seq<ConfigEntry>, keys: set<string>) {
    && out.(configMap := FinalView(v, config).configMap) == FinalView(v, config)
    && (DirectTexts(OwnMap(v, config), OwnMap(v, config), keys) ==> out == FinalView(v, config))
  }

  lemma ExecutionUnique(v: View, config: seq<ConfigEntry>, mid: View, out: View, keys: set<string>)
    requires WellPosed(v, config, keys) && ExecutionOutcome(v, config, mid, out)
    ensures Gives(out, v, config, keys)
  {
    var first, own := SimpleMap(config), OwnMap(v, config);
    OwnMapUnique(v, config, keys, mid.configMap);
    ViewAtEnd(v, first, own, keys, mid, out);
    if DirectTexts(own, own, keys) {
      SelfResolved(own, out.configMap.value, keys);
    }
  }

  /** Texts that have come to their end stay there. */
  lemma TextsStay(texts: Params, first: Params, second: Params, keys: set<string>)
    requires TextsSettle(texts, first, second, keys)
    ensures var out := ResolveTexts(ResolveTexts(texts, first), second);
      TextsSettle(out, first, second, keys) && forall k :: k in out ==> End(out[k], first, second) == out[k]
  {
    forall k | k in texts
      ensures var end := End(texts[k], first, second);
        Settles(end, first, second, keys) && End(end, first, second) == end
    {
      EndStays(texts[k], first, second, keys);
    }
  }

  lemma NothingLeft(texts: Params, first: Params, second: Params)
    requires forall k :: k in texts ==> End(texts[k], first, second) == texts[k]
    ensures ResolveTexts(ResolveTexts(texts, first), second) == texts
  {
  }

  lemma OptStays(texts: Option<Params>, first: Params, second: Params, keys: set<string>)
    requires OptSettle(texts, first, second, keys)
    ensures var out := OptResolve(OptResolve(texts, first), second);
      OptSettle(out, first, second, keys) && OptResolve(OptResolve(out, first), second) == out
  {
    if texts.Some? {
      TextsStay(texts.value, first, second, keys);
      NothingLeft(ResolveTexts(ResolveTexts(texts.value, first), second), first, second);
    }
  }

  /** The shared structs as an execution leaves them lead the next execution to the same result. */
  lemma NextExecutionSame(v: View, config: seq<ConfigEntry>, keys: set<string>)
    requires WellPosed(v, config, keys)
    ensures var v' := AfterExecution(v, FinalView(v, config));
      && WellPosed(v', config, keys) && FinalView(v', config) == FinalView(v, config)
      && OwnMap(v', config) == OwnMap(v, config) && AfterExecution(v', FinalView(v', config)) == v'
  {
    var first, own := SimpleMap(config), OwnMap(v, config);
    OptStays(v.jdbc, first, own, keys);
    OptStays(v.ssh, first, own, keys);
    OptStays(v.redis, first, own, keys);
  }

  /** One execution: the original before it, the clone between the passes, and what it produced. */
  datatype Execution = Execution(before: View, mid: View, out: View)

  ghost function Outcomes(config: seq<ConfigEntry>): Execution -> bool {
    (e: Execution) => ExecutionOutcome(e.before, config, e.mid, e.out)
  }

  /** Executions in a row, each starting from the original as the one before left it. */
  ghost predicate IsHistory(h: seq<Execution>, possible: Execution -> bool) {
    && (forall i :: 0 <= i < |h| ==> possible(h[i]))
    && (forall i :: 0 < i < |h| ==> h[i].before == AfterExecution(h[i - 1].before, h[i - 1].out))
  }

  lemma HistoryExtends(h: seq<Execution>, possible: Execution -> bool, e: Execution)
    requires IsHistory(h, possible) && possible(e)
    requires h != [] ==> e.before == AfterExecution(h[|h| - 1].before, h[|h| - 1].out)
    ensures IsHistory(h + [e], possible)
  {
  }

  /** Every execution of a cyclic job produces what the first one produced, and the original keeps its own
      texts, map and HTTP settings, although its shared structs are overwritten. */
  lemma {:induction false} EveryExecutionSame(h: seq<Execution>, config: seq<ConfigEntry>, keys: set<string>, n: nat)
    requires IsHistory(h, Outcomes(config)) && n < |h| && WellPosed(h[0].before, config, keys)
    ensures Gives(h[n].out, h[0].before, config, keys)
    ensures h[n].out.(configMap := None) == h[0].out.(configMap := None)
    ensures WellPosed(h[n].before, config, keys)
    ensures h[n].before.texts == h[0].before.texts && h[n].before.configMap == h[0].before.configMap
    ensures h[n].before.http == h[0].before.http
    ensures n > 0 ==> h[n].before == AfterExecution(h[0].before, FinalView(h[0].before, config))
  {
    if n > 0 {
      EveryExecutionSame(h, config, keys, n - 1);
      NextExecutionSame(h[0].before, config, keys);
    }
    assert Outcomes(config)(h[n]);
    ExecutionUnique(h[n].before, config, h[n].mid, h[n].out, keys);
    assert Outcomes(config)(h[0]);
    ExecutionUnique(h[0].before, config, h[0].mid, h[0].out, keys);
  }

  /** A merged map without carets resolves itself: the second pass leaves it as it is. */
  lemma PlainOwnMap(own: Params, keys: set<string>)
    requires PlainParams(own) && own.Keys <= keys
    ensures DirectTexts(own, own, keys) && ResolveTexts(own, own) == own
  {
    forall k | k in own ensures Direct(own[k], own, keys) && Resolved(own[k], own) == own[k] {
      PlainIsDirect(Last(own[k]), own, keys);
      PlainHasNoMark(own[k]);
    }
  }
}
